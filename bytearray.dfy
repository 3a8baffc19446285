/**
 * `bytearray_t`: a view of `length` bytes of a backing storage, which slices
 * of the view share. The view itself never changes after construction; the
 * bytes of the storage and the read cursor `_index_offset` do.
 *
 * The storage is an `array<Byte>` shared between a view and its slices, and
 * `first` is where the view's span begins in it.
 */
module ByteArrays {
  import opened Bits
  import opened Wrappers
  import Integers

  /** `std::out_of_range`, the one exception the view throws. */
  datatype Error = OutOfRange

  datatype Endian = Little | Big

  // ---------------------------------------------------------------------
  // Reading integers out of bytes

  /** The number the bytes spell, most significant first. */
  function BigEndianValue(data: seq<Byte>): nat
  {
    if data == [] then 0 else 256 * BigEndianValue(data[..|data| - 1]) + data[|data| - 1]
  }

  /** The number the bytes spell, least significant first. */
  function LittleEndianValue(data: seq<Byte>): nat
  {
    if data == [] then 0 else data[0] + 256 * LittleEndianValue(data[1..])
  }

  function Reverse(data: seq<Byte>): (r: seq<Byte>)
    ensures |r| == |data|
    ensures forall i :: 0 <= i < |data| ==> r[i] == data[|data| - 1 - i]
  {
    if data == [] then [] else Reverse(data[1..]) + [data[0]]
  }

  /** Reversing is its own inverse. */
  lemma ReverseTwice(data: seq<Byte>)
    ensures Reverse(Reverse(data)) == data
  {
  }

  /**
   * `from_bytes_be<T>` in the unsigned promoted type (64 bits at most, so
   * nothing is shifted out): byte 0 shifted to the top, OR-ed with the rest.
   */
  function FromBytesBe(data: seq<Byte>): (r: nat)
    requires 1 <= |data| <= 8
    ensures r == BigEndianValue(data) && r < Pow2(8 * |data|)
  {
    var n := |data|;
    if n == 1 then
      assert data[..0] == [];
      assert Pow2(8) == 256 by { Pow2Small(); }
      data[0]
    else
      var k := 8 * (n - 1);
      var rest := FromBytesBe(data[1..]);
      assert |data[1..]| == n - 1;
      BigEndianFront(data, k);
      var top := ShiftLeft(data[0], k, 64);
      assert top == data[0] * Pow2(k) by { ByteShifted(data[0], k, 64); }
      PlaceByte(data[0], rest, k);
      OrShifted(rest, data[0], k);
      assert 8 * |data| == k + 8;
      Or(top, rest)
  }

  /**
   * `from_bytes_le<T>`: the last byte shifted to the top, OR-ed with the
   * bytes before it.
   */
  function FromBytesLe(data: seq<Byte>): (r: nat)
    requires 1 <= |data| <= 8
    ensures r == LittleEndianValue(data) && r < Pow2(8 * |data|)
  {
    var n := |data|;
    if n == 1 then
      assert data[1..] == [];
      assert Pow2(8) == 256 by { Pow2Small(); }
      data[0]
    else
      var k := 8 * (n - 1);
      var init := data[..n - 1];
      var rest := FromBytesLe(init);
      assert |init| == n - 1;
      LittleEndianBack(data, k);
      var top := ShiftLeft(data[n - 1], k, 64);
      assert top == data[n - 1] * Pow2(k) by { ByteShifted(data[n - 1], k, 64); }
      PlaceByte(data[n - 1], rest, k);
      OrShifted(rest, data[n - 1], k);
      assert 8 * |data| == k + 8;
      Or(top, rest)
  }

  /** A byte shifted up by k bits on the 64-bit carrier loses nothing. */
  lemma ByteShifted(b: Byte, k: nat, c: nat)
    requires k + 8 <= c
    ensures ShiftLeft(b, k, c) == b * Pow2(k)
  {
    var x := b * Pow2(k);
    PlaceByte(b, 0, k);
    Pow2Monotone(k + 8, c);
    ModBelow(x, Pow2(c));
  }

  /** A byte placed above k low bits stays below 2^(k+8). */
  lemma PlaceByte(b: Byte, rest: nat, k: nat)
    requires rest < Pow2(k)
    ensures b * Pow2(k) + rest < Pow2(k + 8)
  {
    var p := Pow2(k);
    Pow2Times256(k);
    MulMonotone(p, b + 1, 256);
  }

  lemma MulMonotone(p: int, x: int, y: int)
    requires p >= 0 && x <= y
    ensures x * p <= y * p
  {
  }

  lemma ModBelow(x: int, m: int)
    requires 0 <= x < m
    ensures x % m == x
  {
  }

  /** Big-endian: the first byte weighs 2^(8(n-1)). */
  lemma {:induction false} BigEndianFront(data: seq<Byte>, k: nat)
    requires |data| >= 1 && k == 8 * (|data| - 1)
    ensures BigEndianValue(data) == data[0] * Pow2(k) + BigEndianValue(data[1..])
  {
    var n := |data|;
    if n == 1 {
      assert data[..0] == [] && data[1..] == [];
    } else {
      var init := data[..n - 1];
      var tail := data[1..];
      var d, last := data[0], data[n - 1];
      BigEndianFront(init, k - 8);
      assert init[0] == d && init[1..] == tail[..|tail| - 1] && tail[|tail| - 1] == last;
      var p := Pow2(k - 8);
      var x := BigEndianValue(init[1..]);
      assert BigEndianValue(init) == d * p + x;
      assert BigEndianValue(tail) == 256 * x + last;
      assert Pow2(k) == 256 * p by { Pow2Times256(k - 8); }
      Distribute(d, p, x);
    }
  }

  /** Little-endian: the last byte weighs 2^(8(n-1)). */
  lemma {:induction false} LittleEndianBack(data: seq<Byte>, k: nat)
    requires |data| >= 1 && k == 8 * (|data| - 1)
    ensures LittleEndianValue(data) == LittleEndianValue(data[..|data| - 1]) + data[|data| - 1] * Pow2(k)
  {
    var n := |data|;
    if n == 1 {
      assert data[1..] == [] && data[..0] == [];
    } else {
      var init := data[..n - 1];
      var tail := data[1..];
      var d, last := data[0], data[n - 1];
      LittleEndianBack(tail, k - 8);
      assert init[0] == d && init[1..] == tail[..|tail| - 1] && tail[|tail| - 1] == last;
      var p := Pow2(k - 8);
      var x := LittleEndianValue(init[1..]);
      assert LittleEndianValue(tail) == x + last * p;
      assert LittleEndianValue(init) == d + 256 * x;
      assert Pow2(k) == 256 * p by { Pow2Times256(k - 8); }
      Distribute(last, p, x);
    }
  }

  lemma Pow2Times256(k: nat)
    ensures Pow2(k + 8) == 256 * Pow2(k)
  {
    Pow2Add(8, k);
    assert Pow2(8) == 256 by { Pow2Small(); }
  }

  lemma Distribute(d: int, p: int, x: int)
    ensures 256 * (d * p + x) == d * (256 * p) + 256 * x
    ensures 256 * (x + d * p) == 256 * x + d * (256 * p)
  {
  }

  /** Reading the reversed bytes little-endian gives their big-endian value. */
  lemma {:induction false} LittleOfReverse(data: seq<Byte>)
    ensures LittleEndianValue(Reverse(data)) == BigEndianValue(data)
  {
    if data != [] {
      var n := |data|;
      var init := data[..n - 1];
      var r := Reverse(data);
      assert r[1..] == Reverse(init);
      LittleOfReverse(init);
    }
  }

  /** `from_bytes_le` of the reversed array is `from_bytes_be` of the array. */
  lemma FromBytesReversed(data: seq<Byte>)
    requires 1 <= |data| <= 8
    ensures FromBytesLe(Reverse(data)) == FromBytesBe(data)
  {
    LittleOfReverse(data);
  }

  /**
   * `static_cast<T>` of the promoted value: T is an integer of `bits` bits,
   * built-in or `intN_t`, signed or not.
   */
  function Decode(data: seq<Byte>, endian: Endian, bits: nat, signed: bool): (r: int)
    requires 1 <= |data| <= 8 && bits > 0
    ensures Integers.Representable(r, bits, signed)
    ensures r % Pow2(bits) == (if endian == Big then BigEndianValue(data) else LittleEndianValue(data)) % Pow2(bits)
  {
    Integers.Convert(if endian == Big then FromBytesBe(data) else FromBytesLe(data), bits, signed)
  }

  /** The number of bytes `at<T>` reads: `sizeof(T)`, or `(bits + 7) / 8` for an `intN_t`. */
  function TypeSize(bits: nat): (n: nat)
    requires 0 < bits <= 64
    ensures 1 <= n <= 8 && bits <= 8 * n < bits + 8
  {
    (bits + 7) / 8
  }

  // ---------------------------------------------------------------------
  // Slicing

  /** The guard of `slice(start, end)` as written: which arguments it lets through. */
  predicate SliceGuardAdmits(length: nat, start: nat, end: nat)
  {
    !(start > length || end > length || end < start)
  }

  /** The inclusive slice `start..end` lies inside a view of `length` bytes. */
  predicate SliceInside(length: nat, start: nat, end: nat)
  {
    start <= end && end + 1 <= length
  }

  /**
   * The guard lets `end == length` through, where the inclusive slice asks
   * for one byte more than the view has.
   */
  lemma SliceGuardFinding()
    ensures SliceGuardAdmits(256, 0, 256) && !SliceInside(256, 0, 256)
    ensures SliceGuardAdmits(256, 128, 256) && !SliceInside(256, 128, 256)
  {
  }

  /** The corrected guard admits exactly the slices inside the view, and only those the written guard admits. */
  lemma SliceInsideAdmitted(length: nat, start: nat, end: nat)
    ensures SliceInside(length, start, end) ==> SliceGuardAdmits(length, start, end)
    ensures SliceGuardAdmits(length, start, end) ==> SliceInside(length, start, end) || end == length
  {
  }

  // ---------------------------------------------------------------------
  // The view

  class ByteArray {
    /** The storage shared with the parent and the slices. */
    const storage: array<Byte>
    /** Where `_backing_span` begins in the storage. */
    const first: nat
    /** `_backing_span.size()`. */
    const length: nat
    /** `_backing_offset`: where the view begins in its immediate parent. */
    const offset: nat
    /** `_index_offset`: the cursor of `next`. */
    var cursor: nat

    predicate Valid()
      reads this
    {
      first + length <= storage.Length
    }

    /** The bytes of the view. */
    function Bytes(): (r: seq<Byte>)
      reads this, storage
      requires Valid()
      ensures |r| == length
    {
      storage[first..first + length]
    }

    /** `valid()`: the view holds at least one byte. */
    function NonEmpty(): (b: bool)
      reads this, storage
      requires Valid()
      ensures b <==> Bytes() != []
    {
      length > 0
    }

    /** `bytearray_t()`: an empty view, offset 0. */
    constructor Empty()
      ensures Valid() && length == 0 && offset == 0 && cursor == 0
      ensures !NonEmpty()
    {
      storage := new Byte[0];
      first := 0;
      length := 0;
      offset := 0;
      cursor := 0;
    }

    /** `bytearray_t(size)`: fresh storage of `size` bytes, all zero. */
    constructor Sized(size: nat)
      ensures Valid() && length == size && offset == 0 && cursor == 0
      ensures Bytes() == seq(size, _ => 0)
      ensures NonEmpty() <==> size > 0
      ensures fresh(storage)
    {
      storage := new Byte[size](_ => 0);
      first := 0;
      length := size;
      offset := 0;
      cursor := 0;
    }

    /** `bytearray_t(vec)` and the other views over a caller's buffer: nothing is copied. */
    constructor Over(buffer: array<Byte>)
      ensures Valid() && storage == buffer && length == buffer.Length && offset == 0 && cursor == 0
      ensures Bytes() == buffer[..]
    {
      storage := buffer;
      first := 0;
      length := buffer.Length;
      offset := 0;
      cursor := 0;
    }

    /** The private sub-slice constructor. */
    constructor Subslice(storage: array<Byte>, first: nat, length: nat, offset: nat)
      requires first + length <= storage.Length
      ensures Valid() && this.storage == storage && this.first == first && this.length == length
      ensures this.offset == offset && cursor == 0
    {
      this.storage := storage;
      this.first := first;
      this.length := length;
      this.offset := offset;
      cursor := 0;
    }

    /**
     * `slice(start, end)` and `operator[](start, end)`: the inclusive range
     * `start..end`, sharing the storage, its offset `start` relative to this
     * view. Out of range throws; the guard is the corrected one.
     */
    method Slice(start: nat, end: nat) returns (r: Result<ByteArray, Error>)
      requires Valid()
      ensures r.Failure? <==> !SliceInside(length, start, end)
      ensures r.Failure? ==> r.error == OutOfRange
      ensures r.Success? ==>
        && fresh(r.value) && r.value.Valid()
        && r.value.storage == storage
        && r.value.length == end - start + 1
        && r.value.offset == start
        && r.value.cursor == 0
        && r.value.Bytes() == Bytes()[start..end + 1]
    {
      if start > length || end >= length || end < start {
        return Failure(OutOfRange);
      }
      var len := (end - start) + 1;
      var view := new ByteArray.Subslice(storage, first + start, len, start);
      return Success(view);
    }

    /**
     * The array overload of `index(idx, data)` as written: when the N bytes
     * from `idx` lie inside the view, each `index<byte_t>(idx + off)`
     * value-initialises that byte of the storage (placement `new T{}`) and
     * the zero is copied into `data[0]`; then it throws on every path.
     */
    method Index(idx: nat, data: array<Byte>) returns (r: Result<(), Error>)
      requires Valid() && data != storage
      modifies storage, data
      ensures r == Failure(OutOfRange)
      ensures idx + data.Length <= length ==>
        && storage[..] == old(storage[..first + idx]) + seq(data.Length, _ => 0) + old(storage[first + idx + data.Length..])
        && data[..] == (if data.Length == 0 then old(data[..]) else [0] + old(data[1..]))
      ensures idx + data.Length > length ==> storage[..] == old(storage[..]) && data[..] == old(data[..])
    {
      var n := data.Length;
      if idx + n <= length {
        var off := 0;
        while off < n
          invariant 0 <= off <= n
          invariant storage[..] == old(storage[..first + idx]) + seq(off, _ => 0) + old(storage[first + idx + off..])
          invariant data[..] == (if off == 0 then old(data[..]) else [0] + old(data[1..]))
        {
          storage[first + idx + off] := 0;
          data[0] := 0;
          off := off + 1;
        }
      }
      return Failure(OutOfRange);
    }

    /**
     * `at<T, endian>(idx)` as written: it always throws, and when the bytes
     * lie inside the view, they are zeroed on the way.
     */
    method At(idx: nat, endian: Endian, bits: nat, signed: bool) returns (r: Result<int, Error>)
      requires Valid() && 0 < bits <= 64
      modifies storage
      ensures r == Failure(OutOfRange)
      ensures idx + TypeSize(bits) <= length ==>
        storage[..] == old(storage[..first + idx]) + seq(TypeSize(bits), _ => 0) + old(storage[first + idx + TypeSize(bits)..])
      ensures idx + TypeSize(bits) > length ==> storage[..] == old(storage[..])
    {
      var data := new Byte[TypeSize(bits)](_ => 0);
      var _ := Index(idx, data);
      return Failure(OutOfRange);
    }

    /**
     * `next<T, endian>()` as written: `at` throws before the cursor moves,
     * zeroing the bytes under the cursor when they lie inside the view.
     */
    method Next(endian: Endian, bits: nat, signed: bool) returns (r: Result<int, Error>)
      requires Valid() && 0 < bits <= 64
      modifies this, storage
      ensures r == Failure(OutOfRange) && cursor == old(cursor)
      ensures old(cursor) + TypeSize(bits) <= length ==>
        storage[..] == old(storage[..first + cursor]) + seq(TypeSize(bits), _ => 0) + old(storage[first + cursor + TypeSize(bits)..])
      ensures old(cursor) + TypeSize(bits) > length ==> storage[..] == old(storage[..])
    {
      r := At(cursor, endian, bits, signed);
    }
  
    /**
     * The evident intent of `index(idx, data)`: copy the N bytes from `idx`
     * into `data`, leaving the storage alone, and throw only when they do not
     * lie inside the view.
     */
    method IndexFixed(idx: nat, data: array<Byte>) returns (r: Result<(), Error>)
      requires Valid() && data != storage
      modifies data
      ensures r.Success? <==> idx + data.Length <= length
      ensures r.Failure? ==> r.error == OutOfRange && data[..] == old(data[..])
      ensures r.Success? ==> data[..] == Bytes()[idx..idx + data.Length]
    {
      var n := data.Length;
      if idx + n > length {
        return Failure(OutOfRange);
      }
      var off := 0;
      while off < n
        invariant 0 <= off <= n
        invariant data[..off] == storage[first + idx..first + idx + off]
      {
        data[off] := storage[first + idx + off];
        off := off + 1;
      }
      assert data[..] == data[..n];
      return Success(());
    }

    /** The evident intent of `at<T, endian>(idx)`: decode the bytes from `idx`, or throw when they run past the end. */
    method AtFixed(idx: nat, endian: Endian, bits: nat, signed: bool) returns (r: Result<int, Error>)
      requires Valid() && 0 < bits <= 64
      ensures r.Success? <==> idx + TypeSize(bits) <= length
      ensures r.Failure? ==> r.error == OutOfRange
      ensures r.Success? ==> r.value == Decode(Bytes()[idx..idx + TypeSize(bits)], endian, bits, signed)
    {
      var data := new Byte[TypeSize(bits)](_ => 0);
      var got := IndexFixed(idx, data);
      if got.Failure? {
        return Failure(OutOfRange);
      }
      var value := if endian == Little then FromBytesLe(data[..]) else FromBytesBe(data[..]);
      return Success(Integers.Convert(value, bits, signed));
    }

    /** The evident intent of `next<T, endian>()`: read at the cursor and move the cursor past what was read. */
    method NextFixed(endian: Endian, bits: nat, signed: bool) returns (r: Result<int, Error>)
      requires Valid() && 0 < bits <= 64
      modifies this
      ensures r.Success? <==> old(cursor) + TypeSize(bits) <= length
      ensures r.Success? ==>
        && r.value == Decode(Bytes()[old(cursor)..old(cursor) + TypeSize(bits)], endian, bits, signed)
        && cursor == old(cursor) + TypeSize(bits)
      ensures r.Failure? ==> r.error == OutOfRange && cursor == old(cursor)
    {
      r := AtFixed(cursor, endian, bits, signed);
      if r.Success? {
        cursor := cursor + TypeSize(bits);
      }
    }
  }
}
