/**
 * `io_t`: the helpers every Panko stream gets on top of five primitives
 * (`seek`, `tell`, `length`, `read`, `write`), which each concrete stream
 * supplies. Here the primitives are those of an in-memory descriptor: a
 * sequence of bytes and a position, with POSIX `lseek`/`read`/`write`
 * behaviour (seeking past the end is allowed, a read stops at the end, a
 * write past the end fills the gap with zeros) and -1 from every call on a
 * descriptor that is not open.
 */
module Io {
  import opened Bits
  import Integers
  import ByteArrays

  /** `SEEK_SET`, `SEEK_CUR`, `SEEK_END`. */
  datatype Whence = SeekSet | SeekCur | SeekEnd

  /** The word sizes, in bytes, of the endian helpers: 16, 32 and 64 bits. */
  predicate WordSize(n: nat)
  {
    n == 2 || n == 4 || n == 8
  }

  function Zeros(n: nat): (r: seq<Byte>)
    ensures |r| == n && forall i :: 0 <= i < n ==> r[i] == 0
  {
    seq(n, i => 0)
  }

  /**
   * The file after `bytes` are written at offset `at`: a gap between the old
   * end and `at` reads as zeros, bytes past the written range are kept.
   */
  function Overwrite(contents: seq<Byte>, at: nat, bytes: seq<Byte>): (r: seq<Byte>)
    ensures |r| == if at + |bytes| <= |contents| then |contents| else at + |bytes|
    ensures r[at..at + |bytes|] == bytes
    ensures forall i :: 0 <= i < at ==> r[i] == if i < |contents| then contents[i] else 0
    ensures forall i :: at + |bytes| <= i < |r| ==> r[i] == contents[i]
  {
    var padded := if at <= |contents| then contents else contents + Zeros(at - |contents|);
    var rest := if at + |bytes| <= |padded| then padded[at + |bytes|..] else [];
    padded[..at] + bytes + rest
  }

  // ---------------------------------------------------------------------
  // Byte order of the `write_le` / `write_be` arrays

  /** `write_le`'s array: byte i is `static_cast<uint8_t>(value >> 8*i)`. */
  function LittleEndianBytes(value: nat, n: nat): (r: seq<Byte>)
    ensures |r| == n
  {
    seq(n, i requires 0 <= i < n => Shr(value, 8 * i) % 256)
  }

  /** `write_be`'s array: byte i is `static_cast<uint8_t>(value >> 8*(n-1-i))`. */
  function BigEndianBytes(value: nat, n: nat): (r: seq<Byte>)
    ensures |r| == n
  {
    seq(n, i requires 0 <= i < n => Shr(value, 8 * (n - 1 - i)) % 256)
  }

  /** Dropping the low byte of the array is writing `value >> 8` one byte shorter. */
  lemma LittleEndianTail(value: nat, n: nat)
    requires n >= 1
    ensures LittleEndianBytes(value, n)[0] == value % 256
    ensures LittleEndianBytes(value, n)[1..] == LittleEndianBytes(value / 256, n - 1)
  {
    var r := LittleEndianBytes(value, n);
    var t := LittleEndianBytes(value / 256, n - 1);
    assert Pow2(0) == 1;
    assert Pow2(8) == 256 by { Pow2Values(); }
    forall i | 0 <= i < n - 1
      ensures r[1..][i] == t[i]
    {
      Pow2Add(8, 8 * i);
      assert 8 * (i + 1) == 8 + 8 * i;
      DivDiv(value, 256, Pow2(8 * i));
    }
  }

  /** Reading `write_le`'s array little-endian gives the value back, modulo the width. */
  lemma {:induction false} LittleEndianRoundTrip(value: nat, n: nat)
    ensures ByteArrays.LittleEndianValue(LittleEndianBytes(value, n)) == value % Pow2(8 * n)
  {
    var r := LittleEndianBytes(value, n);
    if n == 0 {
      assert r == [];
    } else {
      LittleEndianTail(value, n);
      LittleEndianRoundTrip(value / 256, n - 1);
      assert Pow2(8) == 256 by { Pow2Values(); }
      Pow2Add(8, 8 * (n - 1));
      assert 8 * n == 8 + 8 * (n - 1);
      ModSplit(value, 256, Pow2(8 * (n - 1)));
    }
  }

  /** Writing the little-endian value of n bytes gives the same bytes back. */
  lemma {:induction false} LittleEndianBytesOfValue(data: seq<Byte>)
    ensures LittleEndianBytes(ByteArrays.LittleEndianValue(data), |data|) == data
  {
    if data != [] {
      var n := |data|;
      var v := ByteArrays.LittleEndianValue(data);
      var rest := ByteArrays.LittleEndianValue(data[1..]);
      assert v == data[0] + 256 * rest;
      DivModUnique(v, 256, rest, data[0]);
      LittleEndianTail(v, n);
      LittleEndianBytesOfValue(data[1..]);
      var r := LittleEndianBytes(v, n);
      assert r == [r[0]] + r[1..];
      assert data == [data[0]] + data[1..];
    }
  }

  /** `write_be`'s array is `write_le`'s, reversed. */
  lemma BigEndianIsReversed(value: nat, n: nat)
    ensures BigEndianBytes(value, n) == ByteArrays.Reverse(LittleEndianBytes(value, n))
  {
  }

  /** Reading `write_be`'s array big-endian gives the value back, modulo the width. */
  lemma BigEndianRoundTrip(value: nat, n: nat)
    ensures ByteArrays.BigEndianValue(BigEndianBytes(value, n)) == value % Pow2(8 * n)
  {
    var le := LittleEndianBytes(value, n);
    BigEndianIsReversed(value, n);
    ByteArrays.ReverseTwice(le);
    ByteArrays.LittleOfReverse(ByteArrays.Reverse(le));
    LittleEndianRoundTrip(value, n);
  }

  /** Writing the big-endian value of n bytes gives the same bytes back. */
  lemma BigEndianBytesOfValue(data: seq<Byte>)
    ensures BigEndianBytes(ByteArrays.BigEndianValue(data), |data|) == data
  {
    var rev := ByteArrays.Reverse(data);
    ByteArrays.LittleOfReverse(data);
    LittleEndianBytesOfValue(rev);
    BigEndianIsReversed(ByteArrays.BigEndianValue(data), |data|);
    ByteArrays.ReverseTwice(data);
  }

  // ---------------------------------------------------------------------
  // The stream

  class Stream {
    /** `valid()`: a stream that is not open answers -1 to every primitive. */
    const open: bool
    var contents: seq<Byte>
    var pos: nat

    constructor (open: bool, contents: seq<Byte>)
      ensures this.open == open && this.contents == contents && pos == 0
    {
      this.open := open;
      this.contents := contents;
      pos := 0;
    }

    /** `tell()`. */
    function Tell(): (r: int)
      reads this
      ensures r == -1 <==> !open
      ensures open ==> r == pos
    {
      if open then pos else -1
    }

    /** `length()`. */
    function Length(): (r: int)
      reads this
      ensures r == -1 <==> !open
      ensures open ==> r == |contents|
    {
      if open then |contents| else -1
    }

    /** How many of the next n bytes a read gets: it stops at the end of the file. */
    function Available(n: nat): (k: nat)
      reads this
      ensures k <= n
      ensures k < n ==> pos + k >= |contents|
      ensures k > 0 ==> pos + k <= |contents|
    {
      if pos >= |contents| then 0 else if pos + n <= |contents| then n else |contents| - pos
    }

    /** The bytes a read of n bytes gets. */
    function Fetched(n: nat): (r: seq<Byte>)
      reads this
      ensures |r| == if open then Available(n) else 0
      ensures open && pos < |contents| ==> r == contents[pos..pos + Available(n)]
    {
      if open && pos < |contents| then contents[pos..pos + Available(n)] else []
    }

    /** `seek(offset, whence)`: the new position, or -1 when it would be negative. */
    method Seek(offset: int, whence: Whence) returns (r: int)
      modifies this
      ensures contents == old(contents)
      ensures var target := offset + (match whence
                                        case SeekSet => 0
                                        case SeekCur => old(pos)
                                        case SeekEnd => |old(contents)|);
              if open && target >= 0 then r == target && pos == target
              else r == -1 && pos == old(pos)
    {
      var base := match whence
        case SeekSet => 0
        case SeekCur => pos
        case SeekEnd => |contents|;
      if !open || base + offset < 0 {
        return -1;
      }
      pos := base + offset;
      r := pos;
    }

    /**
     * `read(buffer, len, nullptr)`: up to `buffer.Length` bytes land at the
     * front of the buffer; the count read, or -1.
     */
    method ReadRaw(buffer: array<Byte>) returns (res: int)
      modifies this, buffer
      ensures contents == old(contents)
      ensures !open ==> res == -1 && pos == old(pos) && buffer[..] == old(buffer[..])
      ensures open ==> var k := old(Available(buffer.Length));
                       res == k && pos == old(pos) + k &&
                       buffer[..] == old(Fetched(buffer.Length)) + old(buffer[k..])
    {
      if !open {
        return -1;
      }
      var k := Available(buffer.Length);
      var tail := buffer[k..];
      forall i | 0 <= i < k {
        buffer[i] := contents[pos + i];
      }
      assert buffer[..] == Fetched(buffer.Length) + tail;
      pos := pos + k;
      res := k;
    }

    /** `write(buffer, len, nullptr)`: the count written, or -1. */
    method WriteRaw(bytes: seq<Byte>) returns (res: int)
      modifies this
      ensures !open ==> res == -1 && contents == old(contents) && pos == old(pos)
      ensures open ==> res == |bytes| && contents == Overwrite(old(contents), old(pos), bytes) &&
                       pos == old(pos) + |bytes|
    {
      if !open {
        return -1;
      }
      contents := Overwrite(contents, pos, bytes);
      pos := pos + |bytes|;
      res := |bytes|;
    }

    // -------------------------------------------------------------------
    // The helpers of io_t

    /**
     * `seek_rel(offset)`: moves by `offset` from the current position; refused
     * when the position is unknown or the target is negative.
     */
    method SeekRel(offset: int) returns (ok: bool)
      modifies this
      ensures contents == old(contents)
      ensures ok <==> open && old(pos) + offset >= 0
      ensures pos == if ok then old(pos) + offset else old(pos)
    {
      var curr := Tell();
      if curr == -1 || curr + offset < 0 {
        return false;
      }
      var r := Seek(offset, SeekCur);
      ok := r == curr + offset;
    }

    /** `head()`: back to the start of the file. */
    method Head() returns (ok: bool)
      modifies this
      ensures contents == old(contents)
      ensures ok == open
      ensures pos == if open then 0 else old(pos)
    {
      var r := Seek(0, SeekSet);
      ok := r == 0;
    }

    /** `tail()`: to the end of the file. */
    method Tail() returns (ok: bool)
      modifies this
      ensures contents == old(contents)
      ensures ok == open
      ensures pos == if open then |contents| else old(pos)
    {
      var offset := Length();
      if offset < 0 {
        return false;
      }
      var r := Seek(offset, SeekSet);
      ok := r == offset;
    }

    /**
     * `read(value, len, res_len)`: true when the whole buffer was filled;
     * `res_len` becomes the count read, and stays as it was when the
     * primitive failed.
     */
    method ReadCounted(buffer: array<Byte>, resLenIn: nat) returns (ok: bool, resLen: nat)
      modifies this, buffer
      ensures contents == old(contents)
      ensures !open ==> !ok && resLen == resLenIn && pos == old(pos) && buffer[..] == old(buffer[..])
      ensures open ==> var k := old(Available(buffer.Length));
                       resLen == k && (ok <==> k == buffer.Length) && pos == old(pos) + k &&
                       buffer[..] == old(Fetched(buffer.Length)) + old(buffer[k..])
    {
      var res := ReadRaw(buffer);
      if res < 0 {
        return false, resLenIn;
      }
      resLen := res;
      ok := resLen == buffer.Length;
    }

    /** `read(value, len)` and `read(std::array&)`: true when the buffer was filled. */
    method Read(buffer: array<Byte>) returns (ok: bool)
      modifies this, buffer
      ensures contents == old(contents)
      ensures ok <==> open && old(Available(buffer.Length)) == buffer.Length
      ensures pos == old(pos) + |old(Fetched(buffer.Length))|
      ensures buffer[..] == old(Fetched(buffer.Length)) + old(buffer[|Fetched(buffer.Length)|..])
    {
      var resLen;
      ok, resLen := ReadCounted(buffer, 0);
    }

    /**
     * `read_le(uintN_t&)`: n bytes into a zeroed array, assembled least
     * significant first whether or not the read got them all.
     */
    method ReadLe(n: nat) returns (ok: bool, value: nat)
      requires WordSize(n)
      modifies this
      ensures contents == old(contents)
      ensures ok <==> open && old(Available(n)) == n
      ensures pos == old(pos) + |old(Fetched(n))|
      ensures value == ByteArrays.LittleEndianValue(old(Fetched(n)) + Zeros(n - |old(Fetched(n))|))
      ensures ok ==> value == ByteArrays.LittleEndianValue(old(contents[pos..pos + n]))
      ensures value < Pow2(8 * n)
    {
      var data := new Byte[n](i => 0);
      ghost var got := Fetched(n);
      assert data[|got|..] == Zeros(n - |got|);
      ok := Read(data);
      assert data[..] == got + Zeros(n - |got|);
      if ok {
        assert data[..] == old(contents[pos..pos + n]);
      }
      value := ByteArrays.FromBytesLe(data[..]);
    }

    /** `read_be(uintN_t&)`: as `ReadLe`, most significant first. */
    method ReadBe(n: nat) returns (ok: bool, value: nat)
      requires WordSize(n)
      modifies this
      ensures contents == old(contents)
      ensures ok <==> open && old(Available(n)) == n
      ensures pos == old(pos) + |old(Fetched(n))|
      ensures value == ByteArrays.BigEndianValue(old(Fetched(n)) + Zeros(n - |old(Fetched(n))|))
      ensures ok ==> value == ByteArrays.BigEndianValue(old(contents[pos..pos + n]))
      ensures value < Pow2(8 * n)
    {
      var data := new Byte[n](i => 0);
      ghost var got := Fetched(n);
      assert data[|got|..] == Zeros(n - |got|);
      ok := Read(data);
      assert data[..] == got + Zeros(n - |got|);
      if ok {
        assert data[..] == old(contents[pos..pos + n]);
      }
      value := ByteArrays.FromBytesBe(data[..]);
    }

    /** `read_le(T&)` for a signed T: the unsigned read, cast to T. */
    method ReadLeSigned(n: nat) returns (ok: bool, value: int)
      requires WordSize(n)
      modifies this
      ensures contents == old(contents)
      ensures ok <==> open && old(Available(n)) == n
      ensures pos == old(pos) + |old(Fetched(n))|
      ensures InSignedRange(value, 8 * n)
      ensures value % Pow2(8 * n) == ByteArrays.LittleEndianValue(old(Fetched(n)) + Zeros(n - |old(Fetched(n))|))
    {
      var data;
      ok, data := ReadLe(n);
      value := Integers.Convert(data, 8 * n, true);
      DivModUnique(data, Pow2(8 * n), 0, data);
    }

    /** `read_be(T&)` for a signed T. */
    method ReadBeSigned(n: nat) returns (ok: bool, value: int)
      requires WordSize(n)
      modifies this
      ensures contents == old(contents)
      ensures ok <==> open && old(Available(n)) == n
      ensures pos == old(pos) + |old(Fetched(n))|
      ensures InSignedRange(value, 8 * n)
      ensures value % Pow2(8 * n) == ByteArrays.BigEndianValue(old(Fetched(n)) + Zeros(n - |old(Fetched(n))|))
    {
      var data;
      ok, data := ReadBe(n);
      value := Integers.Convert(data, 8 * n, true);
      DivModUnique(data, Pow2(8 * n), 0, data);
    }

    /** `write(value, len)`: true when every byte was written. */
    method Write(bytes: seq<Byte>) returns (ok: bool)
      modifies this
      ensures ok == open
      ensures contents == if open then Overwrite(old(contents), old(pos), bytes) else old(contents)
      ensures pos == if open then old(pos) + |bytes| else old(pos)
    {
      var res := WriteRaw(bytes);
      if res < 0 {
        return false;
      }
      ok := res == |bytes|;
    }

    /** `write_le(uintN_t)`. */
    method WriteLe(value: nat, n: nat) returns (ok: bool)
      requires WordSize(n) && value < Pow2(8 * n)
      modifies this
      ensures ok == open
      ensures contents == if open then Overwrite(old(contents), old(pos), LittleEndianBytes(value, n)) else old(contents)
      ensures pos == if open then old(pos) + n else old(pos)
    {
      var data := LittleEndianBytes(value, n);
      ok := Write(data);
    }

    /** `write_be(uintN_t)`. */
    method WriteBe(value: nat, n: nat) returns (ok: bool)
      requires WordSize(n) && value < Pow2(8 * n)
      modifies this
      ensures ok == open
      ensures contents == if open then Overwrite(old(contents), old(pos), BigEndianBytes(value, n)) else old(contents)
      ensures pos == if open then old(pos) + n else old(pos)
    {
      var data := BigEndianBytes(value, n);
      ok := Write(data);
    }

    /** `write_le(T)` for a signed T: the two's complement bit pattern, little-endian. */
    method WriteLeSigned(value: int, n: nat) returns (ok: bool)
      requires WordSize(n) && InSignedRange(value, 8 * n)
      modifies this
      ensures ok == open
      ensures contents == if open then Overwrite(old(contents), old(pos), LittleEndianBytes(value % Pow2(8 * n), n)) else old(contents)
      ensures pos == if open then old(pos) + n else old(pos)
    {
      var data := Integers.Convert(value, 8 * n, false);
      ok := WriteLe(data, n);
    }

    /** `write_be(T)` for a signed T. */
    method WriteBeSigned(value: int, n: nat) returns (ok: bool)
      requires WordSize(n) && InSignedRange(value, 8 * n)
      modifies this
      ensures ok == open
      ensures contents == if open then Overwrite(old(contents), old(pos), BigEndianBytes(value % Pow2(8 * n), n)) else old(contents)
      ensures pos == if open then old(pos) + n else old(pos)
    {
      var data := Integers.Convert(value, 8 * n, false);
      ok := WriteBe(data, n);
    }
  }

  // ---------------------------------------------------------------------
  // Reading back what was written

  /** The n bytes `write_le` put at `at`, read little-endian, are the value. */
  lemma ReadBackLe(contents: seq<Byte>, at: nat, value: nat, n: nat)
    requires value < Pow2(8 * n)
    ensures ByteArrays.LittleEndianValue(Overwrite(contents, at, LittleEndianBytes(value, n))[at..at + n]) == value
  {
    var bytes := LittleEndianBytes(value, n);
    assert Overwrite(contents, at, bytes)[at..at + n] == bytes;
    LittleEndianRoundTrip(value, n);
    DivModUnique(value, Pow2(8 * n), 0, value);
  }

  /** The n bytes `write_be` put at `at`, read big-endian, are the value. */
  lemma ReadBackBe(contents: seq<Byte>, at: nat, value: nat, n: nat)
    requires value < Pow2(8 * n)
    ensures ByteArrays.BigEndianValue(Overwrite(contents, at, BigEndianBytes(value, n))[at..at + n]) == value
  {
    var bytes := BigEndianBytes(value, n);
    assert Overwrite(contents, at, bytes)[at..at + n] == bytes;
    BigEndianRoundTrip(value, n);
    DivModUnique(value, Pow2(8 * n), 0, value);
  }

  /** A signed value written big-endian and read back as T is the same value. */
  lemma ReadBackBeSigned(contents: seq<Byte>, at: nat, value: int, n: nat)
    requires n > 0 && InSignedRange(value, 8 * n)
    ensures var u := ByteArrays.BigEndianValue(Overwrite(contents, at, BigEndianBytes(value % Pow2(8 * n), n))[at..at + n]);
            u < Pow2(8 * n) && ToSigned(u, 8 * n) == value
  {
    ReadBackBe(contents, at, value % Pow2(8 * n), n);
    ToSignedOfMod(value, 8 * n);
  }

  /** A signed value written little-endian and read back as T is the same value. */
  lemma ReadBackLeSigned(contents: seq<Byte>, at: nat, value: int, n: nat)
    requires n > 0 && InSignedRange(value, 8 * n)
    ensures var u := ByteArrays.LittleEndianValue(Overwrite(contents, at, LittleEndianBytes(value % Pow2(8 * n), n))[at..at + n]);
            u < Pow2(8 * n) && ToSigned(u, 8 * n) == value
  {
    ReadBackLe(contents, at, value % Pow2(8 * n), n);
    ToSignedOfMod(value, 8 * n);
  }

  /**
   * Writing a word, stepping back over it and reading it again gives the
   * word back, and leaves the stream where the write left it.
   */
  method WriteThenReadLe(s: Stream, value: nat, n: nat) returns (ok: bool, back: nat)
    requires s.open && WordSize(n) && value < Pow2(8 * n)
    modifies s
    ensures ok && back == value
    ensures s.contents == Overwrite(old(s.contents), old(s.pos), LittleEndianBytes(value, n))
    ensures s.pos == old(s.pos) + n
  {
    var at := s.pos;
    ok := s.WriteLe(value, n);
    ok := s.SeekRel(-(n as int));
    assert s.pos == at;
    ok, back := s.ReadLe(n);
    ReadBackLe(old(s.contents), at, value, n);
  }
}
