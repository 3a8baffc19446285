/**
 * Bitfields: `bitfield_t<T, E, B...>` keeps named fields `bits_t<lsb, msb>`
 * inside one unsigned word and reads and writes each field through a mask.
 *
 * The word is modelled as a natural below 2^w, w being the width of T's
 * unsigned type (8, 16, 32 or 64). Mask arithmetic is done in that type, or in
 * `int` (32 bits) when the type is narrower than `int`, as C++ promotes it.
 */
module Bitfields {
  import opened Bits

  /** `bits_t<lsb, msb>`: the bit positions lsb to msb, both included. */
  datatype Field = Field(lsb: nat, msb: nat)
  {
    /** The `static_assert` of `bits_t`. */
    predicate Valid()
    {
      lsb <= msb
    }

    /** `size`: `(msb - lsb) + 1`. */
    function Size(): (r: nat)
      requires Valid()
      ensures r >= 1 && lsb + r == msb + 1
    {
      (msb - lsb) + 1
    }
  }

  /** `bit_t<idx>`: a one-bit field. */
  function OneBit(idx: nat): (f: Field)
    ensures f.Valid() && f.Size() == 1 && f.lsb == idx
  {
    Field(idx, idx)
  }

  /**
   * A field lies inside a w-bit word, and the shift `1 << size` that builds
   * its mask is defined: it is done in `int` for words narrower than `int`,
   * and in the word's own type otherwise, where size must stay below w.
   */
  predicate Fits(w: nat, f: Field)
  {
    f.Valid() && 0 < w <= 64 && f.msb < w && (w < 32 || f.Size() < w)
  }

  /** The width the mask arithmetic is done in. */
  function Promoted(w: nat): (c: nat)
    ensures c >= w && c >= 32
  {
    if w < 32 then 32 else w
  }

  /**
   * `computed_mask`: `((1 << size) - 1) << lsb`. It is the bits lsb to msb:
   * 2^(msb+1) - 2^lsb.
   */
  function Mask(w: nat, f: Field): (r: nat)
    requires Fits(w, f)
    ensures r == Pow2(f.msb + 1) - Pow2(f.lsb) && r < Pow2(w)
  {
    MaskValue(w, f);
    MaskBelow(w, f);
    ShiftLeft(ShiftLeft(1, f.Size(), Promoted(w)) - 1, f.lsb, Promoted(w))
  }

  lemma MaskValue(w: nat, f: Field)
    requires Fits(w, f)
    ensures ShiftLeft(1, f.Size(), Promoted(w)) >= 1
    ensures ShiftLeft(ShiftLeft(1, f.Size(), Promoted(w)) - 1, f.lsb, Promoted(w))
            == Pow2(f.msb + 1) - Pow2(f.lsb)
  {
    var size := f.Size();
    var c := Promoted(w);
    assert size < c && size + f.lsb <= c by {
      assert size + f.lsb == f.msb + 1 <= w;
      if w >= 32 {
        assert c == w;
      }
    }
    ShiftedOnes(size, f.lsb, c);
    assert Pow2(size + f.lsb) == Pow2(f.msb + 1) by {
      assert size + f.lsb == f.msb + 1;
    }
  }

  lemma MaskBelow(w: nat, f: Field)
    requires Fits(w, f)
    ensures Pow2(f.msb + 1) - Pow2(f.lsb) < Pow2(w)
  {
    Pow2Monotone(f.msb + 1, w);
  }

  /** `((1 << n) - 1) << k` on a carrier wider than n that holds n + k bits. */
  lemma ShiftedOnes(n: nat, k: nat, c: nat)
    requires n < c && n + k <= c
    ensures ShiftLeft(1, n, c) >= 1
    ensures ShiftLeft(ShiftLeft(1, n, c) - 1, k, c) == Pow2(n + k) - Pow2(k)
  {
    OneShifted(n, c);
    assert ShiftLeft(1, n, c) - 1 == LowMask(n);
    MaskShiftedUp(n, k, c);
  }

  /** `1 << n` on a carrier wider than n. */
  lemma OneShifted(n: nat, c: nat)
    requires n < c
    ensures ShiftLeft(1, n, c) == Pow2(n)
  {
    assert Pow2(0) == 1;
    ShiftPow2(0, n, c);
  }

  /** `((1 << n) - 1) << k` on a carrier that holds it. */
  lemma MaskShiftedUp(n: nat, k: nat, c: nat)
    requires n + k <= c
    ensures ShiftLeft(LowMask(n), k, c) == Pow2(n + k) - Pow2(k)
  {
    var m := Pow2(n + k) - Pow2(k);
    Pow2Monotone(k, n + k);
    Pow2Monotone(n + k, c);
    MaskShifted(n, k);
    ModBelow(m, Pow2(c));
  }

  lemma ModBelow(x: int, m: int)
    requires 0 <= x < m
    ensures x % m == x
  {
  }

  /** Bit i of the mask is set exactly inside the field. */
  lemma MaskBit(w: nat, f: Field, i: nat)
    requires Fits(w, f)
    ensures Bit(Mask(w, f), i) == (f.lsb <= i <= f.msb)
  {
    Pow2DiffBit(f.msb + 1, f.lsb, i);
  }

  /** The bits of a word outside the field. */
  function Outside(w: nat, f: Field, word: nat): (r: nat)
    requires Fits(w, f)
    ensures r <= word
  {
    AndBound(word, Not(Mask(w, f), w));
    And(word, Not(Mask(w, f), w))
  }

  lemma OutsideBit(w: nat, f: Field, word: nat, i: nat)
    requires Fits(w, f) && i < w
    ensures Bit(Outside(w, f, word), i) == (Bit(word, i) && !(f.lsb <= i <= f.msb))
  {
    AndBit(word, Not(Mask(w, f), w), i);
    NotBit(Mask(w, f), w, i);
    MaskBit(w, f, i);
  }

  // ---------------------------------------------------------------------
  // The operations on the word

  /** `get<key>()`: `(_backing & computed_mask) >> lsb`. */
  function GetField(w: nat, f: Field, word: nat): (r: nat)
    requires Fits(w, f) && word < Pow2(w)
    ensures r < Pow2(f.Size())
  {
    FieldBelow(w, f, word);
    Shr(And(word, Mask(w, f)), f.lsb)
  }

  /** `set<key>()` for a one-bit field: `_backing |= computed_mask`. */
  function SetFieldBit(w: nat, f: Field, word: nat): (r: nat)
    requires Fits(w, f) && word < Pow2(w)
    ensures r < Pow2(w)
  {
    OrBound(word, Mask(w, f), w);
    Or(word, Mask(w, f))
  }

  /**
   * `set<key>(value)`, for fields wider than one bit: `(_backing &
   * ~computed_mask) | ((vutype(value) << lsb) & computed_mask)`, stored back
   * as the word type. `value` is already `vutype(value)`.
   */
  function SetField(w: nat, f: Field, word: nat, value: nat): (r: nat)
    requires Fits(w, f) && f.Size() > 1 && word < Pow2(w) && value < Pow2(w)
    ensures r < Pow2(w)
  {
    var c := Promoted(w);
    var m := Mask(w, f);
    Pow2Monotone(w, c);
    Or(And(word, Not(m, c)), And(ShiftLeft(value, f.lsb, c), m)) % Pow2(w)
  }

  /** `clr<key>()`: `_backing &= vutype(~computed_mask)`. */
  function ClearField(w: nat, f: Field, word: nat): (r: nat)
    requires Fits(w, f) && word < Pow2(w)
    ensures r < Pow2(w)
  {
    var c := Promoted(w);
    Pow2Monotone(w, c);
    AndBound(word, Not(Mask(w, f), c) % Pow2(w));
    And(word, Not(Mask(w, f), c) % Pow2(w))
  }

  /**
   * The width of `smallest_type_for<size>`, the type `get` returns: the
   * smallest of 8, 16, 32 and 64 bits (24-bit fields get 32) that holds it.
   */
  function ResultWidth(size: nat): (e: nat)
    requires 0 < size <= 64
    ensures size <= e
  {
    var bytes := (size + 7) / 8;
    if bytes == 1 then 8 else if bytes == 2 then 16 else if bytes <= 4 then 32 else 64
  }

  /**
   * `~get<key>()` passed as a T: the complement in the result type, which is
   * promoted to `int` first when narrower than `int`, converted to T.
   */
  function Complemented(w: nat, f: Field, x: nat): (r: nat)
    requires Fits(w, f) && x < Pow2(f.Size())
    ensures r < Pow2(w)
  {
    var e := ResultWidth(f.Size());
    Pow2Monotone(f.Size(), e);
    if e < 32 then (-1 - x) % Pow2(w)
    else Not(x, e) % Pow2(w)
  }

  /**
   * `tgl<key>()`: `_backing ^= computed_mask` for a one-bit field,
   * `set<key>(~get<key>())` otherwise.
   */
  function ToggleField(w: nat, f: Field, word: nat): (r: nat)
    requires Fits(w, f) && word < Pow2(w)
    ensures r < Pow2(w)
  {
    if f.Size() == 1 then
      XorBound(word, Mask(w, f), w);
      Xor(word, Mask(w, f))
    else
      SetField(w, f, word, Complemented(w, f, GetField(w, f, word)))
  }

  // ---------------------------------------------------------------------
  // Bit by bit

  /** `get` reads the field's bits, moved down to bit 0. */
  lemma GetIsField(w: nat, f: Field, word: nat)
    requires Fits(w, f) && word < Pow2(w)
    ensures Shr(And(word, Mask(w, f)), f.lsb) == (word / Pow2(f.lsb)) % Pow2(f.Size())
  {
    var size := f.Size();
    var a := And(word, Mask(w, f));
    var got := Shr(a, f.lsb);
    var down := Shr(word, f.lsb);
    var want := down % Pow2(size);
    assert down == word / Pow2(f.lsb);
    FieldBelow(w, f, word);
    forall j: nat | j < size
      ensures Bit(got, j) == Bit(want, j)
    {
      DivPow2Bit(a, f.lsb, j);
      AndBit(word, Mask(w, f), j + f.lsb);
      MaskBit(w, f, j + f.lsb);
      ModPow2Bit(down, size, j);
      DivPow2Bit(word, f.lsb, j);
    }
    BitsEqual(got, want, size);
  }

  /** The masked word shifted down fits in the field's size. */
  lemma FieldBelow(w: nat, f: Field, word: nat)
    requires Fits(w, f)
    ensures Shr(And(word, Mask(w, f)), f.lsb) < Pow2(f.Size())
  {
    var a := And(word, Mask(w, f));
    AndBound(word, Mask(w, f));
    MaskShifted(f.Size(), f.lsb);
    ShrBelow(a, f.lsb, f.Size());
  }

  /** A value no larger than n one-bits shifted up by k has at most n bits left after `>> k`. */
  lemma ShrBelow(a: nat, k: nat, n: nat)
    requires a <= LowMask(n) * Pow2(k)
    ensures Shr(a, k) < Pow2(n)
  {
    DivAtMost(a, Pow2(k), LowMask(n));
  }

  /** a <= m * d implies a / d <= m. */
  lemma DivAtMost(a: int, d: int, m: int)
    requires d > 0 && 0 <= a <= m * d
    ensures a / d <= m
  {
    var q := a / d;
    var r := a % d;
    assert a == d * q + r;
    if q > m {
      MulMonotone(d, m + 1, q);
    }
  }

  lemma MulMonotone(d: int, x: int, y: int)
    requires d >= 0 && x <= y
    ensures d * x <= d * y
  {
  }

  /** Bit i of `set(value)`: the value's bit i - lsb inside the field, the word's outside. */
  lemma SetValueBit(w: nat, f: Field, word: nat, value: nat, i: nat)
    requires Fits(w, f) && f.Size() > 1 && word < Pow2(w) && value < Pow2(w)
    ensures SetField(w, f, word, value) < Pow2(w)
    ensures i < w ==>
      Bit(SetField(w, f, word, value), i) == if f.lsb <= i <= f.msb then Bit(value, i - f.lsb) else Bit(word, i)
  {
    var c := Promoted(w);
    var m := Mask(w, f);
    Pow2Monotone(w, c);
    var low := And(word, Not(m, c));
    var high := And(ShiftLeft(value, f.lsb, c), m);
    var both := Or(low, high);
    if i < w {
      ModPow2Bit(both, w, i);
      OrBit(low, high, i);
      AndBit(word, Not(m, c), i);
      NotBit(m, c, i);
      AndBit(ShiftLeft(value, f.lsb, c), m, i);
      ShiftLeftBit(value, f.lsb, c, i);
      MaskBit(w, f, i);
    }
  }

  /** Bit j of the field read by `get` is bit lsb + j of the word. */
  lemma GetBit(w: nat, f: Field, word: nat, j: nat)
    requires Fits(w, f) && word < Pow2(w)
    ensures Bit(GetField(w, f, word), j) == (j < f.Size() && Bit(word, j + f.lsb))
  {
    GetIsField(w, f, word);
    assert Shr(word, f.lsb) == word / Pow2(f.lsb);
    ModPow2Bit(Shr(word, f.lsb), f.Size(), j);
    DivPow2Bit(word, f.lsb, j);
  }

  /** Bit i of `set()` on a one-bit field. */
  lemma SetBitBit(w: nat, f: Field, word: nat, i: nat)
    requires Fits(w, f) && word < Pow2(w)
    ensures Bit(SetFieldBit(w, f, word), i) == (Bit(word, i) || f.lsb <= i <= f.msb)
  {
    OrBit(word, Mask(w, f), i);
    MaskBit(w, f, i);
  }

  /** Bit i of `clr()`. */
  lemma ClearBit(w: nat, f: Field, word: nat, i: nat)
    requires Fits(w, f) && word < Pow2(w) && i < w
    ensures Bit(ClearField(w, f, word), i) == (Bit(word, i) && !(f.lsb <= i <= f.msb))
  {
    var c := Promoted(w);
    Pow2Monotone(w, c);
    AndBit(word, Not(Mask(w, f), c) % Pow2(w), i);
    ModPow2Bit(Not(Mask(w, f), c), w, i);
    NotBit(Mask(w, f), c, i);
    MaskBit(w, f, i);
  }

  /** Bits of the complement handed to `set` by `tgl`: every bit below the field's size flips. */
  lemma ComplementedBit(w: nat, f: Field, x: nat, j: nat)
    requires Fits(w, f) && x < Pow2(f.Size()) && j < f.Size()
    ensures Bit(Complemented(w, f, x), j) == !Bit(x, j)
  {
    var size := f.Size();
    var e := ResultWidth(size);
    var p := Pow2(w);
    Pow2Monotone(size, e);
    Pow2Monotone(size, w);
    assert j < w && j < e;
    if e < 32 {
      assert Complemented(w, f, x) == (-1 - x) % p;
      assert (-1 - x) % p == Not(x, w) by {
        DivModUnique(-1 - x, p, -1, p - 1 - x);
      }
      NotBit(x, w, j);
    } else {
      assert Complemented(w, f, x) == Not(x, e) % p;
      ModPow2Bit(Not(x, e), w, j);
      NotBit(x, e, j);
    }
  }

  /** Bit i of `tgl()`: the field's bits flip, the others stay. */
  lemma ToggleBit(w: nat, f: Field, word: nat, i: nat)
    requires Fits(w, f) && word < Pow2(w) && i < w
    ensures Bit(ToggleField(w, f, word), i) == if f.lsb <= i <= f.msb then !Bit(word, i) else Bit(word, i)
  {
    MaskBit(w, f, i);
    if f.Size() == 1 {
      XorBit(word, Mask(w, f), i);
    } else {
      var g := GetField(w, f, word);
      var v := Complemented(w, f, g);
      assert ToggleField(w, f, word) == SetField(w, f, word, v);
      SetValueBit(w, f, word, v, i);
      if f.lsb <= i <= f.msb {
        var j := i - f.lsb;
        assert j < f.Size() && j + f.lsb == i;
        assert Bit(v, j) == !Bit(g, j) by {
          ComplementedBit(w, f, g, j);
        }
        assert Bit(g, j) == Bit(word, i) by {
          GetBit(w, f, word, j);
        }
      }
    }
  }

  // ---------------------------------------------------------------------
  // What each operation does to the field and to the rest of the word

  /** A word is determined by its field and the bits outside it. */
  lemma FieldDetermines(w: nat, f: Field, x: nat, y: nat)
    requires Fits(w, f) && x < Pow2(w) && y < Pow2(w)
    requires GetField(w, f, x) == GetField(w, f, y) && Outside(w, f, x) == Outside(w, f, y)
    ensures x == y
  {
    forall i: nat | i < w
      ensures Bit(x, i) == Bit(y, i)
    {
      SameBit(w, f, x, y, i);
    }
    BitsEqual(x, y, w);
  }

  lemma SameBit(w: nat, f: Field, x: nat, y: nat, i: nat)
    requires Fits(w, f) && x < Pow2(w) && y < Pow2(w) && i < w
    requires GetField(w, f, x) == GetField(w, f, y) && Outside(w, f, x) == Outside(w, f, y)
    ensures Bit(x, i) == Bit(y, i)
  {
    if f.lsb <= i <= f.msb {
      var j := i - f.lsb;
      assert j < f.Size() && j + f.lsb == i;
      assert Bit(x, i) == Bit(GetField(w, f, x), j) by {
        GetBit(w, f, x, j);
      }
      assert Bit(y, i) == Bit(GetField(w, f, y), j) by {
        GetBit(w, f, y, j);
      }
    } else {
      assert Bit(x, i) == Bit(Outside(w, f, x), i) by {
        OutsideBit(w, f, x, i);
      }
      assert Bit(y, i) == Bit(Outside(w, f, y), i) by {
        OutsideBit(w, f, y, i);
      }
    }
  }

  /** Two words agree outside the field exactly when their bits outside it agree. */
  lemma SameOutside(w: nat, f: Field, x: nat, y: nat)
    requires Fits(w, f) && x < Pow2(w) && y < Pow2(w)
    requires forall i: nat :: i < w && !(f.lsb <= i <= f.msb) ==> Bit(x, i) == Bit(y, i)
    ensures Outside(w, f, x) == Outside(w, f, y)
  {
    forall i: nat | i < w
      ensures Bit(Outside(w, f, x), i) == Bit(Outside(w, f, y), i)
    {
      OutsideBit(w, f, x, i);
      OutsideBit(w, f, y, i);
    }
    BitsEqual(Outside(w, f, x), Outside(w, f, y), w);
  }

  /** `set(value)` stores the value's low size bits in the field and leaves the rest alone. */
  lemma SetValueGets(w: nat, f: Field, word: nat, value: nat)
    requires Fits(w, f) && f.Size() > 1 && word < Pow2(w) && value < Pow2(w)
    ensures GetField(w, f, SetField(w, f, word, value)) == value % Pow2(f.Size())
    ensures Outside(w, f, SetField(w, f, word, value)) == Outside(w, f, word)
  {
    SetValueField(w, f, word, value);
    var r := SetField(w, f, word, value);
    forall i: nat | i < w && !(f.lsb <= i <= f.msb)
      ensures Bit(r, i) == Bit(word, i)
    {
      SetValueBit(w, f, word, value, i);
    }
    SameOutside(w, f, r, word);
  }

  lemma SetValueField(w: nat, f: Field, word: nat, value: nat)
    requires Fits(w, f) && f.Size() > 1 && word < Pow2(w) && value < Pow2(w)
    ensures GetField(w, f, SetField(w, f, word, value)) == value % Pow2(f.Size())
  {
    var g := GetField(w, f, SetField(w, f, word, value));
    forall j: nat | j < f.Size()
      ensures Bit(g, j) == Bit(value % Pow2(f.Size()), j)
    {
      SetValueFieldBit(w, f, word, value, j);
    }
    BitsEqual(g, value % Pow2(f.Size()), f.Size());
  }

  lemma SetValueFieldBit(w: nat, f: Field, word: nat, value: nat, j: nat)
    requires Fits(w, f) && f.Size() > 1 && word < Pow2(w) && value < Pow2(w) && j < f.Size()
    ensures Bit(GetField(w, f, SetField(w, f, word, value)), j) == Bit(value % Pow2(f.Size()), j)
  {
    var i := j + f.lsb;
    var r := SetField(w, f, word, value);
    assert i < w && f.lsb <= i <= f.msb && i - f.lsb == j;
    assert Bit(GetField(w, f, r), j) == Bit(r, i) by {
      GetBit(w, f, r, j);
    }
    assert Bit(r, i) == Bit(value, j) by {
      SetValueBit(w, f, word, value, i);
    }
    ModPow2Bit(value, f.Size(), j);
  }

  /** `set()` on a one-bit field makes it 1 and leaves the rest alone. */
  lemma SetBitGets(w: nat, f: Field, word: nat)
    requires Fits(w, f) && f.Size() == 1 && word < Pow2(w)
    ensures GetField(w, f, SetFieldBit(w, f, word)) == 1
    ensures Outside(w, f, SetFieldBit(w, f, word)) == Outside(w, f, word)
  {
    var r := SetFieldBit(w, f, word);
    assert Bit(GetField(w, f, r), 0) by {
      GetBit(w, f, r, 0);
      SetBitBit(w, f, word, f.lsb);
    }
    OneBitValue(GetField(w, f, r));
    forall i: nat | i < w && !(f.lsb <= i <= f.msb)
      ensures Bit(r, i) == Bit(word, i)
    {
      SetBitBit(w, f, word, i);
    }
    SameOutside(w, f, r, word);
  }

  /** A one-bit value with its bit set is 1. */
  lemma OneBitValue(g: nat)
    requires g < Pow2(1) && Bit(g, 0)
    ensures g == 1
  {
  }

  /** `clr()` makes the field 0 and leaves the rest alone. */
  lemma ClearGets(w: nat, f: Field, word: nat)
    requires Fits(w, f) && word < Pow2(w)
    ensures GetField(w, f, ClearField(w, f, word)) == 0
    ensures Outside(w, f, ClearField(w, f, word)) == Outside(w, f, word)
  {
    var r := ClearField(w, f, word);
    forall j: nat | j < f.Size()
      ensures Bit(GetField(w, f, r), j) == Bit(0, j)
    {
      GetBit(w, f, r, j);
      ClearBit(w, f, word, j + f.lsb);
      BitZero(j);
    }
    BitsEqual(GetField(w, f, r), 0, f.Size());
    forall i: nat | i < w && !(f.lsb <= i <= f.msb)
      ensures Bit(r, i) == Bit(word, i)
    {
      ClearBit(w, f, word, i);
    }
    SameOutside(w, f, r, word);
  }

  /** `tgl()` complements the field within its size and leaves the rest alone. */
  lemma ToggleGets(w: nat, f: Field, word: nat)
    requires Fits(w, f) && word < Pow2(w)
    ensures GetField(w, f, ToggleField(w, f, word)) == Not(GetField(w, f, word), f.Size())
    ensures Outside(w, f, ToggleField(w, f, word)) == Outside(w, f, word)
  {
    var r := ToggleField(w, f, word);
    var g := GetField(w, f, word);
    forall j: nat | j < f.Size()
      ensures Bit(GetField(w, f, r), j) == Bit(Not(g, f.Size()), j)
    {
      GetBit(w, f, r, j);
      GetBit(w, f, word, j);
      ToggleBit(w, f, word, j + f.lsb);
      NotBit(g, f.Size(), j);
    }
    BitsEqual(GetField(w, f, r), Not(g, f.Size()), f.Size());
    forall i: nat | i < w && !(f.lsb <= i <= f.msb)
      ensures Bit(r, i) == Bit(word, i)
    {
      ToggleBit(w, f, word, i);
    }
    SameOutside(w, f, r, word);
  }

  // ---------------------------------------------------------------------
  // Consequences

  /** Two fields that share no bit. */
  predicate Disjoint(f: Field, g: Field)
  {
    f.msb < g.lsb || g.msb < f.lsb
  }

  /** Changing a word only inside field f leaves every field disjoint from f as it was. */
  lemma OtherFieldKept(w: nat, f: Field, g: Field, x: nat, y: nat)
    requires Fits(w, f) && Fits(w, g) && Disjoint(f, g) && x < Pow2(w) && y < Pow2(w)
    requires Outside(w, f, x) == Outside(w, f, y)
    ensures GetField(w, g, x) == GetField(w, g, y)
  {
    forall j: nat | j < g.Size()
      ensures Bit(GetField(w, g, x), j) == Bit(GetField(w, g, y), j)
    {
      OtherFieldBit(w, f, g, x, y, j);
    }
    BitsEqual(GetField(w, g, x), GetField(w, g, y), g.Size());
  }

  lemma OtherFieldBit(w: nat, f: Field, g: Field, x: nat, y: nat, j: nat)
    requires Fits(w, f) && Fits(w, g) && Disjoint(f, g) && x < Pow2(w) && y < Pow2(w)
    requires Outside(w, f, x) == Outside(w, f, y) && j < g.Size()
    ensures Bit(GetField(w, g, x), j) == Bit(GetField(w, g, y), j)
  {
    var i := j + g.lsb;
    assert i < w && !(f.lsb <= i <= f.msb);
    assert Bit(GetField(w, g, x), j) == Bit(x, i) by {
      GetBit(w, g, x, j);
    }
    assert Bit(GetField(w, g, y), j) == Bit(y, i) by {
      GetBit(w, g, y, j);
    }
    OutsideBit(w, f, x, i);
    OutsideBit(w, f, y, i);
  }

  /** `tgl()` twice restores the word. */
  lemma ToggleTwice(w: nat, f: Field, word: nat)
    requires Fits(w, f) && word < Pow2(w)
    ensures ToggleField(w, f, ToggleField(w, f, word)) == word
  {
    var once := ToggleField(w, f, word);
    var g := GetField(w, f, word);
    ToggleGets(w, f, word);
    ToggleGets(w, f, once);
    assert Not(Not(g, f.Size()), f.Size()) == g;
    FieldDetermines(w, f, ToggleField(w, f, once), word);
  }

  /** `set()` twice is `set()` once. */
  lemma SetBitIdempotent(w: nat, f: Field, word: nat)
    requires Fits(w, f) && f.Size() == 1 && word < Pow2(w)
    ensures SetFieldBit(w, f, SetFieldBit(w, f, word)) == SetFieldBit(w, f, word)
  {
    SetBitGets(w, f, word);
    SetBitGets(w, f, SetFieldBit(w, f, word));
    FieldDetermines(w, f, SetFieldBit(w, f, SetFieldBit(w, f, word)), SetFieldBit(w, f, word));
  }

  /** `clr()` twice is `clr()` once. */
  lemma ClearIdempotent(w: nat, f: Field, word: nat)
    requires Fits(w, f) && word < Pow2(w)
    ensures ClearField(w, f, ClearField(w, f, word)) == ClearField(w, f, word)
  {
    ClearGets(w, f, word);
    ClearGets(w, f, ClearField(w, f, word));
    FieldDetermines(w, f, ClearField(w, f, ClearField(w, f, word)), ClearField(w, f, word));
  }

  /** The second `set(value)` on a field overwrites the first. */
  lemma SetValueOverwrites(w: nat, f: Field, word: nat, a: nat, b: nat)
    requires Fits(w, f) && f.Size() > 1 && word < Pow2(w) && a < Pow2(w) && b < Pow2(w)
    ensures SetField(w, f, SetField(w, f, word, a), b) == SetField(w, f, word, b)
  {
    var once := SetField(w, f, word, a);
    SetValueGets(w, f, word, a);
    SetValueGets(w, f, once, b);
    SetValueGets(w, f, word, b);
    FieldDetermines(w, f, SetField(w, f, once, b), SetField(w, f, word, b));
  }

  /** Storing back what `get` read changes nothing. */
  lemma SetValueOfGet(w: nat, f: Field, word: nat)
    requires Fits(w, f) && f.Size() > 1 && word < Pow2(w)
    ensures GetField(w, f, word) < Pow2(w)
    ensures SetField(w, f, word, GetField(w, f, word)) == word
  {
    var g := GetField(w, f, word);
    Pow2Monotone(f.Size(), w);
    SetValueGets(w, f, word, g);
    ModBelow(g, Pow2(f.Size()));
    FieldDetermines(w, f, SetField(w, f, word, g), word);
  }

  // ---------------------------------------------------------------------
  // Comparing with a value of T

  /**
   * `operator==(T)` as written: `_backing == value`. For a T narrower than
   * `int` both sides are promoted to `int`, so the unsigned backing is
   * compared with the signed value; otherwise the value is converted to the
   * unsigned type first.
   */
  predicate EqualsAsWritten(w: nat, word: nat, value: int)
  {
    if w < 32 then word == value else word == value % Pow2(w)
  }

  /** The comparison with the value converted to the backing type, as `operator=(T)` stores it. */
  predicate EqualsConverted(w: nat, word: nat, value: int)
  {
    word == value % Pow2(w)
  }

  /** A word equal to the value as written equals it converted too. */
  lemma AsWrittenIsConverted(w: nat, word: nat, value: int)
    requires word < Pow2(w)
    ensures EqualsAsWritten(w, word, value) ==> EqualsConverted(w, word, value)
  {
    if w < 32 && word == value {
      DivModUnique(value, Pow2(w), 0, value);
    }
  }

  /** A signed 8-bit bitfield assigned -1 holds 0xFF, which compares unequal to -1 as written. */
  lemma EqualsFinding()
    ensures (-1) % Pow2(8) == 0xFF
    ensures !EqualsAsWritten(8, (-1) % Pow2(8), -1)
    ensures EqualsConverted(8, (-1) % Pow2(8), -1)
  {
    Pow2Values();
  }

  /** Whatever is assigned compares equal to itself once converted. */
  lemma AssignedEqualsConverted(w: nat, value: int)
    ensures EqualsConverted(w, value % Pow2(w), value)
    ensures EqualsConverted(w, value % Pow2(w), value + Pow2(w))
  {
    ModShift(value, 1, Pow2(w));
  }

  /** A T in range: a w-bit signed or unsigned integer. */
  predicate InType(w: nat, signed: bool, value: int)
    requires w > 0
  {
    if signed then InSignedRange(value, w) else 0 <= value < Pow2(w)
  }

  /** Keys name fields by index; every field lies inside the word. */
  predicate Layout(w: nat, fields: seq<Field>)
  {
    0 < w <= 64 && forall k :: 0 <= k < |fields| ==> Fits(w, fields[k])
  }

  // ---------------------------------------------------------------------
  // The bitfield object

  /** `bitfield_t<T, E, B...>`: one word of T's unsigned type, read and written field by field. */
  class Bitfield {
    /** The width of T. */
    const width: nat
    /** T is signed. */
    const signed: bool
    /** The `bits_t` of each key, in key order. */
    const fields: seq<Field>
    /** `_backing`. */
    var backing: nat

    predicate Valid()
      reads this
    {
      Layout(width, fields) && backing < Pow2(width)
    }

    /** The value of field `key`. */
    function Get(key: nat): (r: nat)
      reads this
      requires Valid() && key < |fields|
      ensures r < Pow2(fields[key].Size())
    {
      GetField(width, fields[key], backing)
    }

    /** `bitfield_t{}`: value-initialised, every field 0. */
    constructor (width: nat, signed: bool, fields: seq<Field>)
      requires Layout(width, fields)
      ensures Valid() && this.width == width && this.signed == signed && this.fields == fields
      ensures backing == 0
      ensures forall k :: 0 <= k < |fields| ==> Get(k) == 0
    {
      this.width := width;
      this.signed := signed;
      this.fields := fields;
      backing := 0;
      new;
      forall k | 0 <= k < |fields|
        ensures GetField(width, fields[k], 0) == 0
      {
        ZeroFields(width, fields[k]);
      }
    }

    /** The copy constructor. */
    constructor Copy(other: Bitfield)
      requires other.Valid()
      ensures Valid() && width == other.width && signed == other.signed && fields == other.fields
      ensures backing == other.backing
    {
      width := other.width;
      signed := other.signed;
      fields := other.fields;
      backing := other.backing;
    }

    /** `bitfield_t(T value)`: the value converted to the unsigned backing type. */
    constructor FromValue(width: nat, signed: bool, fields: seq<Field>, value: int)
      requires Layout(width, fields) && InType(width, signed, value)
      ensures Valid() && this.width == width && this.signed == signed && this.fields == fields
      ensures backing == value % Pow2(width)
      ensures AsValue() == value
    {
      this.width := width;
      this.signed := signed;
      this.fields := fields;
      backing := value % Pow2(width);
      new;
      ValueRoundTrip(width, signed, value);
    }

    /** `operator=(const bitfield_t&)`: assigning an object to itself changes nothing. */
    method Assign(other: Bitfield)
      requires Valid() && other.Valid() && other.width == width
      modifies this
      ensures Valid() && backing == old(other.backing)
    {
      if other != this {
        backing := other.backing;
      }
    }

    /** `operator=(T)`. */
    method AssignValue(value: int)
      requires Valid() && InType(width, signed, value)
      modifies this
      ensures Valid() && backing == value % Pow2(width)
      ensures AsValue() == value
    {
      backing := value % Pow2(width);
      ValueRoundTrip(width, signed, value);
    }

    /** `set<key>()` on a one-bit field: the field becomes 1, the other fields keep their values. */
    method Set(key: nat)
      requires Valid() && key < |fields| && fields[key].Size() == 1
      modifies this
      ensures Valid() && backing == SetFieldBit(width, fields[key], old(backing))
      ensures Get(key) == 1
      ensures forall k :: 0 <= k < |fields| && Disjoint(fields[key], fields[k]) ==> Get(k) == old(Get(k))
    {
      ghost var before := backing;
      backing := SetFieldBit(width, fields[key], backing);
      SetBitGets(width, fields[key], before);
      forall k | 0 <= k < |fields| && Disjoint(fields[key], fields[k])
        ensures Get(k) == GetField(width, fields[k], before)
      {
        OtherFieldKept(width, fields[key], fields[k], backing, before);
      }
    }

    /** `set<key>(value)` on a wider field: the field takes the value's low bits, the other fields keep theirs. */
    method SetValue(key: nat, value: int)
      requires Valid() && key < |fields| && fields[key].Size() > 1 && InType(width, signed, value)
      modifies this
      ensures Valid() && backing == SetField(width, fields[key], old(backing), value % Pow2(width))
      ensures Get(key) == value % Pow2(fields[key].Size())
      ensures forall k :: 0 <= k < |fields| && Disjoint(fields[key], fields[k]) ==> Get(k) == old(Get(k))
    {
      ghost var before := backing;
      var f := fields[key];
      backing := SetField(width, f, backing, value % Pow2(width));
      SetValueGets(width, f, before, value % Pow2(width));
      ModPow2Mod(value, width, f.Size());
      forall k | 0 <= k < |fields| && Disjoint(f, fields[k])
        ensures Get(k) == GetField(width, fields[k], before)
      {
        OtherFieldKept(width, f, fields[k], backing, before);
      }
    }

    /** `clr<key>()`: the field becomes 0, the other fields keep their values. */
    method Clr(key: nat)
      requires Valid() && key < |fields|
      modifies this
      ensures Valid() && backing == ClearField(width, fields[key], old(backing))
      ensures Get(key) == 0
      ensures forall k :: 0 <= k < |fields| && Disjoint(fields[key], fields[k]) ==> Get(k) == old(Get(k))
    {
      ghost var before := backing;
      backing := ClearField(width, fields[key], backing);
      ClearGets(width, fields[key], before);
      forall k | 0 <= k < |fields| && Disjoint(fields[key], fields[k])
        ensures Get(k) == GetField(width, fields[k], before)
      {
        OtherFieldKept(width, fields[key], fields[k], backing, before);
      }
    }

    /** `tgl<key>()`: every bit of the field flips, the other fields keep their values. */
    method Tgl(key: nat)
      requires Valid() && key < |fields|
      modifies this
      ensures Valid() && backing == ToggleField(width, fields[key], old(backing))
      ensures Get(key) == Not(old(Get(key)), fields[key].Size())
      ensures forall k :: 0 <= k < |fields| && Disjoint(fields[key], fields[k]) ==> Get(k) == old(Get(k))
    {
      ghost var before := backing;
      backing := ToggleField(width, fields[key], backing);
      ToggleGets(width, fields[key], before);
      forall k | 0 <= k < |fields| && Disjoint(fields[key], fields[k])
        ensures Get(k) == GetField(width, fields[k], before)
      {
        OtherFieldKept(width, fields[key], fields[k], backing, before);
      }
    }

    /** `operator T()`: the backing read as a T. */
    function AsValue(): (r: int)
      reads this
      requires Valid()
      ensures InType(width, signed, r)
      ensures r % Pow2(width) == backing
    {
      if signed then ToSigned(backing, width)
      else
        ModBelow(backing, Pow2(width));
        backing
    }

    /** `operator==(const bitfield_t&)`: two bitfields of one T are equal exactly when they read as the same T. */
    function Equals(other: Bitfield): (b: bool)
      reads this, other
      requires Valid() && other.Valid()
      ensures width == other.width && signed == other.signed ==> (b <==> AsValue() == other.AsValue())
    {
      backing == other.backing
    }

    /**
     * `operator==(T)` as written: it never holds unless the value converted
     * to the backing type is the word, and for T of 32 bits or more it
     * holds exactly then.
     */
    function EqualsValue(value: int): (b: bool)
      reads this
      requires Valid()
      ensures b ==> EqualsConverted(width, backing, value)
      ensures width >= 32 ==> (b <==> EqualsConverted(width, backing, value))
    {
      AsWrittenIsConverted(width, backing, value);
      EqualsAsWritten(width, backing, value)
    }
  }

  /** The zero word holds 0 in every field. */
  lemma ZeroFields(w: nat, f: Field)
    requires Fits(w, f)
    ensures GetField(w, f, 0) == 0
  {
    forall j: nat | j < f.Size()
      ensures Bit(GetField(w, f, 0), j) == Bit(0, j)
    {
      GetBit(w, f, 0, j);
      BitZero(j + f.lsb);
      BitZero(j);
    }
    BitsEqual(GetField(w, f, 0), 0, f.Size());
  }

  /** A T stored in the backing word reads back as the same T. */
  lemma ValueRoundTrip(w: nat, signed: bool, value: int)
    requires w > 0 && InType(w, signed, value)
    ensures value % Pow2(w) < Pow2(w)
    ensures (if signed then ToSigned(value % Pow2(w), w) else value % Pow2(w)) == value
  {
    if signed {
      ToSignedOfMod(value, w);
    } else {
      ModBelow(value, Pow2(w));
    }
  }
}
