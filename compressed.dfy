/**
 * The compressed file wrappers (`bz2_file_t`, `gzip_file_t`, `lz4_file_t`,
 * `lzma_file_t`, `xz_file_t`): each recognises its format by a magic mask
 * and value on the first eight bytes of the file read as one big-endian
 * 64-bit word, and each stubs out its I/O primitives to return 0.
 */
module Compressed {
  import opened Bits
  import ByteArrays
  import Io

  datatype Format = Bz2 | Gzip | Lz4 | Lzma | Xz

  /** `MAGIC_MASK`: a 64-bit word that always takes in the top bit, the first byte's. */
  function MagicMask(f: Format): (r: nat)
    ensures 0x8000_0000_0000_0000 <= r < 0x1_0000_0000_0000_0000
  {
    match f
    case Bz2 => 0xFFFF_FF00_0000_0000
    case Gzip => 0xFFFF_0000_0000_0000
    case Lz4 => 0xFFFF_FFFF_0000_0000
    case Lzma => 0xFFFF_FF00_0000_0000
    case Xz => 0xFFFF_FFFF_FFFF_0000
  }

  /** `MAGIC_VALUE`: a 64-bit word no greater than the mask it is tested under. */
  function MagicValue(f: Format): (r: nat)
    ensures r < 0x1_0000_0000_0000_0000 && r <= MagicMask(f)
  {
    match f
    case Bz2 => 0x425A_6800_0000_0000
    case Gzip => 0x1F8B_0000_0000_0000
    case Lz4 => 0x0422_4D18_0000_0000
    case Lzma => 0x5D00_0000_0000_0000
    case Xz => 0xFD37_7A58_5A00_0000
  }

  /**
   * The leading bytes of the file that the mask selects: "BZh"; the gzip
   * ID1/ID2 of section 2.3.1 of RFC 1952; the LZ4 frame magic 0x184D2204
   * stored little-endian; the first three bytes of an LZMA-alone header;
   * the Header Magic Bytes of section 2.1.1.1 of the .xz file format.
   */
  function MagicBytes(f: Format): (r: seq<Byte>)
    ensures 1 <= |r| <= 8
  {
    match f
    case Bz2 => [0x42, 0x5A, 0x68]
    case Gzip => [0x1F, 0x8B]
    case Lz4 => [0x04, 0x22, 0x4D, 0x18]
    case Lzma => [0x5D, 0x00, 0x00]
    case Xz => [0xFD, 0x37, 0x7A, 0x58, 0x5A, 0x00]
  }

  /** How many low bits of the word the mask ignores. */
  function Low(f: Format): (b: nat)
    ensures b == 64 - 8 * |MagicBytes(f)|
  {
    64 - 8 * |MagicBytes(f)|
  }

  /**
   * `valid_magic(magic)`: the masked word equals the magic value. Masking
   * only clears bits, so no word below the magic value passes.
   */
  function ValidMagic(f: Format, magic: nat): (b: bool)
    ensures b ==> MagicValue(f) <= magic
  {
    AndBound(magic, MagicMask(f));
    And(magic, MagicMask(f)) == MagicValue(f)
  }

  // ---------------------------------------------------------------------
  // What the mask and value select

  /** The mask is the top bits down to `Low`. */
  lemma MaskShape(f: Format)
    ensures MagicMask(f) == Pow2(64) - Pow2(Low(f))
  {
    Pow2Values();
  }

  lemma BigEndianSnoc(a: seq<Byte>, x: Byte)
    ensures ByteArrays.BigEndianValue(a + [x]) == 256 * ByteArrays.BigEndianValue(a) + x
  {
    assert (a + [x])[..|a|] == a;
  }

  /** The magic bytes as one number, most significant first. */
  function Prefix(f: Format): nat
  {
    match f
    case Bz2 => 0x42_5A68
    case Gzip => 0x1F8B
    case Lz4 => 0x0422_4D18
    case Lzma => 0x5D_0000
    case Xz => 0xFD37_7A58_5A00
  }

  lemma BigEndian2(a: Byte, b: Byte)
    ensures ByteArrays.BigEndianValue([a, b]) == 0x100 * a + b
  {
    BigEndianSnoc([], a);
    assert [] + [a] == [a];
    BigEndianSnoc([a], b);
    assert [a] + [b] == [a, b];
  }

  lemma BigEndian3(a: Byte, b: Byte, c: Byte)
    ensures ByteArrays.BigEndianValue([a, b, c]) == 0x1_0000 * a + 0x100 * b + c
  {
    BigEndian2(a, b);
    BigEndianSnoc([a, b], c);
    assert [a, b] + [c] == [a, b, c];
  }

  lemma BigEndian4(a: Byte, b: Byte, c: Byte, d: Byte)
    ensures ByteArrays.BigEndianValue([a, b, c, d]) == 0x100_0000 * a + 0x1_0000 * b + 0x100 * c + d
  {
    BigEndian3(a, b, c);
    BigEndianSnoc([a, b, c], d);
    assert [a, b, c] + [d] == [a, b, c, d];
  }

  lemma BigEndian6(a: Byte, b: Byte, c: Byte, d: Byte, e: Byte, g: Byte)
    ensures ByteArrays.BigEndianValue([a, b, c, d, e, g])
            == 0x100_0000_0000 * a + 0x1_0000_0000 * b + 0x100_0000 * c + 0x1_0000 * d + 0x100 * e + g
  {
    BigEndian4(a, b, c, d);
    BigEndianSnoc([a, b, c, d], e);
    assert [a, b, c, d] + [e] == [a, b, c, d, e];
    BigEndianSnoc([a, b, c, d, e], g);
    assert [a, b, c, d, e] + [g] == [a, b, c, d, e, g];
  }

  lemma PrefixValue(f: Format)
    ensures ByteArrays.BigEndianValue(MagicBytes(f)) == Prefix(f)
  {
    match f
    case Bz2 => BigEndian3(0x42, 0x5A, 0x68);
    case Gzip => BigEndian2(0x1F, 0x8B);
    case Lz4 => BigEndian4(0x04, 0x22, 0x4D, 0x18);
    case Lzma => BigEndian3(0x5D, 0x00, 0x00);
    case Xz => BigEndian6(0xFD, 0x37, 0x7A, 0x58, 0x5A, 0x00);
  }

  /** The value is the magic bytes placed at `Low`. */
  lemma ValueShape(f: Format)
    ensures MagicValue(f) == ByteArrays.BigEndianValue(MagicBytes(f)) * Pow2(Low(f))
  {
    PrefixValue(f);
    Pow2Values();
  }

  /** The mask is the top bits down to `Low`, the value the magic bytes placed there. */
  lemma MagicShape(f: Format)
    ensures MagicMask(f) == Pow2(64) - Pow2(Low(f))
    ensures MagicValue(f) == ByteArrays.BigEndianValue(MagicBytes(f)) * Pow2(Low(f))
  {
    MaskShape(f);
    ValueShape(f);
  }

  lemma AndHighMaskBit(m: nat, b: nat, w: nat, i: nat)
    requires b <= w
    ensures Pow2(w) - Pow2(b) >= 0
    ensures Bit(And(m, Pow2(w) - Pow2(b)), i) == (i < w && Bit(Shr(m, b) * Pow2(b), i))
  {
    Pow2DiffBit(w, b, i);
    AndBit(m, Pow2(w) - Pow2(b), i);
    MulPow2Bit(Shr(m, b), b, i);
    if b <= i {
      DivPow2Bit(m, b, i - b);
      assert i - b + b == i;
    }
  }

  lemma ShrTimesBelow(m: nat, b: nat)
    ensures Shr(m, b) * Pow2(b) <= m
  {
    var p := Pow2(b);
    assert m == p * (m / p) + m % p;
  }

  /** Masking with the top bits down to b clears the bits below b. */
  lemma AndHighMask(m: nat, b: nat, w: nat)
    requires b <= w && m < Pow2(w)
    ensures Pow2(w) - Pow2(b) >= 0
    ensures And(m, Pow2(w) - Pow2(b)) == Shr(m, b) * Pow2(b)
  {
    Pow2Monotone(b, w);
    var x := And(m, Pow2(w) - Pow2(b));
    var y := Shr(m, b) * Pow2(b);
    AndBound(m, Pow2(w) - Pow2(b));
    ShrTimesBelow(m, b);
    forall i: nat | i < w
      ensures Bit(x, i) == Bit(y, i)
    {
      AndHighMaskBit(m, b, w, i);
    }
    BitsEqual(x, y, w);
  }

  /** The big-endian value of a concatenation. */
  lemma {:induction false} BigEndianConcat(a: seq<Byte>, b: seq<Byte>)
    ensures ByteArrays.BigEndianValue(a + b) == ByteArrays.BigEndianValue(a) * Pow2(8 * |b|) + ByteArrays.BigEndianValue(b)
  {
    if b == [] {
      assert a + b == a;
    } else {
      var n := |b|;
      var init := b[..n - 1];
      assert (a + b)[..|a + b| - 1] == a + init;
      BigEndianConcat(a, init);
      var p := Pow2(8 * (n - 1));
      var va := ByteArrays.BigEndianValue(a);
      var vi := ByteArrays.BigEndianValue(init);
      assert Pow2(8 * n) == 256 * p by {
        ByteArrays.Pow2Times256(8 * (n - 1));
        assert 8 * (n - 1) + 8 == 8 * n;
      }
      ByteArrays.Distribute(va, p, vi);
    }
  }

  lemma {:induction false} BigEndianBelow(a: seq<Byte>)
    ensures ByteArrays.BigEndianValue(a) < Pow2(8 * |a|)
  {
    if a != [] {
      var n := |a|;
      var init := a[..n - 1];
      BigEndianBelow(init);
      var p := Pow2(8 * (n - 1));
      assert Pow2(8 * n) == 256 * p by {
        ByteArrays.Pow2Times256(8 * (n - 1));
        assert 8 * (n - 1) + 8 == 8 * n;
      }
      var v := ByteArrays.BigEndianValue(init);
      assert 256 * v <= 256 * (p - 1) by { MulBelow(256, v, p); }
    }
  }

  /** Byte sequences of one length with one big-endian value are equal. */
  lemma BigEndianInjective(a: seq<Byte>, b: seq<Byte>)
    requires |a| == |b| && ByteArrays.BigEndianValue(a) == ByteArrays.BigEndianValue(b)
    ensures a == b
  {
    Io.BigEndianBytesOfValue(a);
    Io.BigEndianBytesOfValue(b);
  }

  lemma MulComm(x: int, y: int)
    ensures x * y == y * x
  {
  }

  lemma CancelFactor(x: nat, y: nat, p: nat)
    requires p > 0
    ensures x * p == y * p <==> x == y
  {
    if x < y {
      assert x * p < y * p;
    } else if y < x {
      assert y * p < x * p;
    }
  }

  /**
   * `valid_magic` of an 8-byte header read big-endian holds exactly when
   * the header starts with the format's magic bytes.
   */
  lemma MagicOfHeader(f: Format, header: seq<Byte>)
    requires |header| == 8
    ensures ValidMagic(f, ByteArrays.BigEndianValue(header)) <==> header[..|MagicBytes(f)|] == MagicBytes(f)
  {
    var k := |MagicBytes(f)|;
    var top, low := header[..k], header[k..];
    assert header == top + low;
    BigEndianConcat(top, low);
    BigEndianBelow(low);
    BigEndianBelow(header);
    assert 8 * |low| == Low(f);
    MagicShape(f);
    MaskedTop(ByteArrays.BigEndianValue(header), ByteArrays.BigEndianValue(top), ByteArrays.BigEndianValue(low),
              Low(f), ByteArrays.BigEndianValue(MagicBytes(f)));
    if ByteArrays.BigEndianValue(top) == ByteArrays.BigEndianValue(MagicBytes(f)) {
      BigEndianInjective(top, MagicBytes(f));
    }
  }

  /** A word t * 2^b + l with l < 2^b passes the mask above b with value v * 2^b exactly when t == v. */
  lemma MaskedTop(m: nat, t: nat, l: nat, b: nat, v: nat)
    requires b <= 64 && m < Pow2(64) && m == t * Pow2(b) + l && l < Pow2(b)
    ensures Pow2(64) - Pow2(b) >= 0
    ensures And(m, Pow2(64) - Pow2(b)) == v * Pow2(b) <==> t == v
  {
    var p := Pow2(b);
    assert m == p * t + l by { MulComm(t, p); }
    DivModUnique(m, p, t, l);
    AndHighMask(m, b, 64);
    CancelFactor(t, v, p);
  }

  /**
   * For every 64-bit word: `valid_magic` holds exactly when the word's
   * leading bytes, most significant first, are the magic bytes.
   */
  lemma ValidMagicIff(f: Format, magic: nat)
    requires magic < Pow2(64)
    ensures ValidMagic(f, magic) <==> Io.BigEndianBytes(magic, 8)[..|MagicBytes(f)|] == MagicBytes(f)
  {
    var header := Io.BigEndianBytes(magic, 8);
    Io.BigEndianRoundTrip(magic, 8);
    DivModUnique(magic, Pow2(64), 0, magic);
    MagicOfHeader(f, header);
  }

  /** The bits below `Low` do not matter. */
  lemma LowBitsIgnored(f: Format, m: nat, n: nat)
    requires m < Pow2(64) && n < Pow2(64)
    requires Shr(m, Low(f)) == Shr(n, Low(f))
    ensures ValidMagic(f, m) == ValidMagic(f, n)
  {
    MagicShape(f);
    AndHighMask(m, Low(f), 64);
    AndHighMask(n, Low(f), 64);
  }

  /** A value of n bits placed at bit b, with n + b == 64, fits a word and survives the mask. */
  lemma PlacedValue(m: nat, v: nat, b: nat, n: nat)
    requires n + b == 64 && v < Pow2(n) && m == v * Pow2(b)
    ensures m < Pow2(64)
    ensures Pow2(64) - Pow2(b) >= 0 && And(m, Pow2(64) - Pow2(b)) == m
  {
    var p, q := Pow2(b), Pow2(n);
    assert m == p * v by { MulComm(v, p); }
    assert Pow2(64) == q * p by {
      Pow2Add(n, b);
    }
    MulStrict(p, v, q);
    AndHighMask(m, b, 64);
    DivModUnique(m, p, v, 0);
    assert Shr(m, b) == v;
  }

  lemma MulStrict(p: nat, v: nat, q: nat)
    requires v < q && p > 0
    ensures p * v < q * p
  {
    MulBelow(p, v, q);
    assert p * (q - 1) == p * q - p;
  }

  /** `MAGIC_VALUE` lies inside `MAGIC_MASK`, so it passes its own test. */
  lemma MagicValueValid(f: Format)
    ensures MagicValue(f) < Pow2(64)
    ensures ValidMagic(f, MagicValue(f))
  {
    MagicShape(f);
    BigEndianBelow(MagicBytes(f));
    PlacedValue(MagicValue(f), ByteArrays.BigEndianValue(MagicBytes(f)), Low(f), 8 * |MagicBytes(f)|);
  }

  /** The five magics begin with different bytes, so at most one accepts a word. */
  lemma AtMostOneFormat(f: Format, g: Format, magic: nat)
    requires magic < Pow2(64)
    requires ValidMagic(f, magic) && ValidMagic(g, magic)
    ensures f == g
  {
    var header := Io.BigEndianBytes(magic, 8);
    ValidMagicIff(f, magic);
    ValidMagicIff(g, magic);
    assert header[0] == MagicBytes(f)[0] == MagicBytes(g)[0];
  }

  // ---------------------------------------------------------------------
  // The wrappers

  /**
   * A compressed file: the raw file it was opened on, with the five I/O
   * primitives left as stubs that answer 0 whatever they are asked.
   */
  class CompressedFile {
    const format: Format
    var backing: Io.Stream

    /** The constructor from a raw file, which it takes over. */
    constructor (format: Format, backing: Io.Stream)
      ensures this.format == format && this.backing == backing
    {
      this.format := format;
      this.backing := backing;
    }

    /** The default constructor: a default raw file, which is not open. */
    constructor Empty(format: Format)
      ensures this.format == format && fresh(backing) && !backing.open && backing.contents == []
    {
      this.format := format;
      backing := new Io.Stream(false, []);
    }

    /**
     * The move constructor: starts out default and swaps with other, so it
     * ends up with other's raw file and other with a default one.
     */
    constructor Moved(other: CompressedFile)
      modifies other
      ensures format == other.format && backing == old(other.backing)
      ensures fresh(other.backing) && !other.backing.open && other.backing.contents == []
    {
      format := other.format;
      backing := new Io.Stream(false, []);
      new;
      MoveAssign(other);
    }

    /** The move assignment: the two wrappers exchange their raw files. */
    method MoveAssign(other: CompressedFile)
      requires other.format == format
      modifies this, other
      ensures backing == old(other.backing) && other.backing == old(backing)
    {
      backing, other.backing := other.backing, backing;
    }

    /** `valid()`: that of the raw file underneath. */
    predicate IsOpen()
      reads this, backing
    {
      backing.open
    }

    /** `seek(offset, whence)`: a stub. */
    method Seek(offset: int, whence: Io.Whence) returns (r: int)
      ensures r == 0
    {
      r := 0;
    }

    /** `tell()`: a stub. */
    method Tell() returns (r: int)
      ensures r == 0
    {
      r := 0;
    }

    /** `length()`: a stub. */
    method Length() returns (r: int)
      ensures r == 0
    {
      r := 0;
    }

    /** `read(buffer, len, nullptr)`: a stub that fills nothing. */
    method ReadRaw(len: nat) returns (res: int)
      ensures res == 0
    {
      res := 0;
    }

    /** `write(buffer, len, nullptr)`: a stub that writes nothing. */
    method WriteRaw(bytes: seq<Byte>) returns (res: int)
      ensures res == 0
    {
      res := 0;
    }

    /** The inherited `seek_rel` over the stubs: only a move by 0 succeeds. */
    method SeekRel(offset: int) returns (ok: bool)
      ensures ok <==> offset == 0
    {
      var curr := Tell();
      if curr == -1 || curr + offset < 0 {
        return false;
      }
      var r := Seek(offset, Io.SeekCur);
      ok := r == curr + offset;
    }

    /** The inherited `head` over the stubs: always succeeds. */
    method Head() returns (ok: bool)
      ensures ok
    {
      var r := Seek(0, Io.SeekSet);
      ok := r == 0;
    }

    /** The inherited `tail` over the stubs: always succeeds, at "length" 0. */
    method Tail() returns (ok: bool)
      ensures ok
    {
      var offset := Length();
      if offset < 0 {
        return false;
      }
      var r := Seek(offset, Io.SeekSet);
      ok := r == offset;
    }

    /**
     * The inherited `read(value, len, res_len)` over the stubs: nothing is
     * read, `res_len` becomes 0, and only an empty read succeeds.
     */
    method ReadCounted(len: nat, resLenIn: nat) returns (ok: bool, resLen: nat)
      ensures resLen == 0
      ensures ok <==> len == 0
    {
      var res := ReadRaw(len);
      if res < 0 {
        return false, resLenIn;
      }
      resLen := res;
      ok := resLen == len;
    }

    /** The inherited `write(value, len)` over the stubs: only an empty write succeeds. */
    method Write(bytes: seq<Byte>) returns (ok: bool)
      ensures ok <==> bytes == []
    {
      var res := WriteRaw(bytes);
      if res < 0 {
        return false;
      }
      ok := res == |bytes|;
    }
  }
}
