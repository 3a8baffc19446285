/**
 * `open(filename)`: opens a file read-only and tells what it holds by the
 * first eight bytes, read as one big-endian word: one of the compressed
 * formats, zstd, or a raw file.
 *
 * The file system is a parameter: whether the file could be opened and the
 * bytes it holds. `zstd_file_t::valid_magic` is not part of this model; it
 * is a parameter as well.
 */
module Files {
  import opened Bits
  import opened Wrappers
  import ByteArrays
  import Io
  import Compressed

  /** Which alternative of `file_t` the file was opened as. */
  datatype Kind = Raw | Packed(format: Compressed.Format) | Zstd

  datatype Opened = Opened(kind: Kind, file: Io.Stream)

  /** The magics, tried in the order `open` tries them; the first match wins. */
  function Classify(magic: nat, zstdMagic: nat -> bool): (k: Kind)
    ensures k.Packed? ==> Compressed.ValidMagic(k.format, magic)
    ensures k == Zstd ==> zstdMagic(magic)
  {
    if Compressed.ValidMagic(Compressed.Bz2, magic) then Packed(Compressed.Bz2)
    else if Compressed.ValidMagic(Compressed.Gzip, magic) then Packed(Compressed.Gzip)
    else if Compressed.ValidMagic(Compressed.Lz4, magic) then Packed(Compressed.Lz4)
    else if Compressed.ValidMagic(Compressed.Lzma, magic) then Packed(Compressed.Lzma)
    else if Compressed.ValidMagic(Compressed.Xz, magic) then Packed(Compressed.Xz)
    else if zstdMagic(magic) then Zstd
    else Raw
  }

  /**
   * Since at most one of the five magics accepts a word, the order among
   * them does not matter: a word is classified as a format exactly when
   * that format's magic accepts it, and zstd or raw only when none does.
   */
  lemma ClassifyExact(magic: nat, zstdMagic: nat -> bool, f: Compressed.Format)
    requires magic < Pow2(64)
    ensures Classify(magic, zstdMagic) == Packed(f) <==> Compressed.ValidMagic(f, magic)
    ensures !Classify(magic, zstdMagic).Packed? <==> forall g :: !Compressed.ValidMagic(g, magic)
  {
    var k := Classify(magic, zstdMagic);
    if Compressed.ValidMagic(f, magic) && k.Packed? {
      Compressed.AtMostOneFormat(f, k.format, magic);
    }
    if !k.Packed? {
      forall g
        ensures !Compressed.ValidMagic(g, magic)
      {
        match g
        case Bz2 =>
        case Gzip =>
        case Lz4 =>
        case Lzma =>
        case Xz =>
      }
    }
  }

  /** In terms of the file's first bytes: the header starts with the format's magic bytes. */
  lemma ClassifyHeader(header: seq<Byte>, zstdMagic: nat -> bool, f: Compressed.Format)
    requires |header| == 8
    ensures Classify(ByteArrays.BigEndianValue(header), zstdMagic) == Packed(f)
            <==> header[..|Compressed.MagicBytes(f)|] == Compressed.MagicBytes(f)
  {
    var m := ByteArrays.BigEndianValue(header);
    Compressed.BigEndianBelow(header);
    ClassifyExact(m, zstdMagic, f);
    Compressed.MagicOfHeader(f, header);
  }

  /**
   * `open`: none when the file cannot be opened, when rewinding after the
   * header read fails, or when fewer than eight bytes could be read; the
   * rewind happens before the read's result is looked at. Otherwise the
   * file, at its start, wrapped as its magic says.
   */
  method Open(valid: bool, contents: seq<Byte>, zstdMagic: nat -> bool) returns (r: Option<Opened>)
    ensures r.Some? <==> valid && |contents| >= 8
    ensures r.Some? ==> fresh(r.value.file)
    ensures r.Some? ==> r.value.file.open && r.value.file.contents == contents && r.value.file.pos == 0
    ensures r.Some? ==> r.value.kind == Classify(ByteArrays.BigEndianValue(contents[..8]), zstdMagic)
  {
    var file := new Io.Stream(valid, contents);
    if !file.open {
      return None;
    }
    var res, buff := file.ReadBe(8);
    var rewound := file.Head();
    if !rewound {
      return None;
    }
    if !res {
      return None;
    }
    if Compressed.ValidMagic(Compressed.Bz2, buff) {
      return Some(Opened(Packed(Compressed.Bz2), file));
    }
    if Compressed.ValidMagic(Compressed.Gzip, buff) {
      return Some(Opened(Packed(Compressed.Gzip), file));
    }
    if Compressed.ValidMagic(Compressed.Lz4, buff) {
      return Some(Opened(Packed(Compressed.Lz4), file));
    }
    if Compressed.ValidMagic(Compressed.Lzma, buff) {
      return Some(Opened(Packed(Compressed.Lzma), file));
    }
    if Compressed.ValidMagic(Compressed.Xz, buff) {
      return Some(Opened(Packed(Compressed.Xz), file));
    }
    if zstdMagic(buff) {
      return Some(Opened(Zstd, file));
    }
    return Some(Opened(Raw, file));
  }
}
