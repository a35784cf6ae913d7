/**
 * The two on-disk records of an archive: the archive header at offset 0 and the
 * header in front of every stored file.  Both are modelled as fixed-size records
 * with a packed little-endian layout of HS and FS bytes; field order and widths
 * follow the C declarations.
 */
module Format {
  import opened Bytes

  /** The eight magic bytes "ARCHv1.0". */
  const MAGIC: bytes := [0x41, 0x52, 0x43, 0x48, 0x76, 0x31, 0x2E, 0x30]

  /** Size of the archive header: magic[8], file_count (16 bits), total_size (64 bits), has_password (8 bits). */
  const HS: nat := 19
  /** Width of the filename field of a file header. */
  const NAME_LEN: nat := 256
  /** Size of a file header: filename, file_size (64), permissions (32), offset (64), is_compressed, algorithm. */
  const FS: nat := NAME_LEN + 22
  /** The only compression algorithm tag the builder writes. */
  const ALGO_PPM: uint8 := 1
  /** Entries larger than this (100 MiB) are skipped by the extractor. */
  const MAX_EXTRACT: nat := 100 * 1024 * 1024

  datatype ArchiveHeader = ArchiveHeader(magic: bytes, fileCount: uint16, totalSize: uint64, hasPassword: uint8)
  {
    predicate Valid() { |magic| == 8 }
  }

  datatype FileHeader = FileHeader(
    filename: bytes,
    fileSize: uint64,
    permissions: uint32,
    offset: uint64,
    isCompressed: uint8,
    algorithm: uint8)
  {
    predicate Valid() { |filename| == NAME_LEN }
  }

  lemma MagicLength()
    ensures |MAGIC| == 8
  {
  }

  function EncodeArchiveHeader(h: ArchiveHeader): (r: bytes)
    requires h.Valid()
    ensures |r| == HS && r[..8] == h.magic && r[18] == h.hasPassword
  {
    h.magic + LittleEndian(h.fileCount, 2) + LittleEndian(h.totalSize, 8) + [h.hasPassword]
  }

  function DecodeArchiveHeader(b: bytes): (h: ArchiveHeader)
    requires |b| == HS
    ensures h.Valid() && h.magic == b[..8] && h.hasPassword == b[18]
  {
    Pow256Widths();
    ArchiveHeader(b[..8], FromLittleEndian(b[8..10]), FromLittleEndian(b[10..18]), b[18])
  }

  /** Reading back a written archive header gives the same header. */
  lemma ArchiveHeaderRoundTrip(h: ArchiveHeader)
    requires h.Valid()
    ensures DecodeArchiveHeader(EncodeArchiveHeader(h)) == h
  {
    var b := EncodeArchiveHeader(h);
    assert b[8..10] == LittleEndian(h.fileCount, 2);
    assert b[10..18] == LittleEndian(h.totalSize, 8);
    LittleEndianRoundTrip(h.fileCount, 2);
    LittleEndianRoundTrip(h.totalSize, 8);
  }

  /** The layout uses every byte: any HS bytes are the encoding of the header they decode to. */
  lemma ArchiveHeaderBytesRoundTrip(b: bytes)
    requires |b| == HS
    ensures EncodeArchiveHeader(DecodeArchiveHeader(b)) == b
  {
    FromLittleEndianRoundTrip(b[8..10]);
    FromLittleEndianRoundTrip(b[10..18]);
    assert b == b[..8] + b[8..10] + b[10..18] + [b[18]];
  }

  function EncodeFileHeader(h: FileHeader): (r: bytes)
    requires h.Valid()
    ensures |r| == FS && r[..NAME_LEN] == h.filename
  {
    h.filename + LittleEndian(h.fileSize, 8) + LittleEndian(h.permissions, 4)
      + LittleEndian(h.offset, 8) + [h.isCompressed, h.algorithm]
  }

  function DecodeFileHeader(b: bytes): (h: FileHeader)
    requires |b| == FS
    ensures h.Valid() && h.filename == b[..NAME_LEN]
  {
    Pow256Widths();
    FileHeader(b[..256], FromLittleEndian(b[256..264]), FromLittleEndian(b[264..268]),
      FromLittleEndian(b[268..276]), b[276], b[277])
  }

  /** Reading back a written file header gives the same header. */
  lemma FileHeaderRoundTrip(h: FileHeader)
    requires h.Valid()
    ensures DecodeFileHeader(EncodeFileHeader(h)) == h
  {
    var b := EncodeFileHeader(h);
    var n := NAME_LEN;
    assert b[n..n + 8] == LittleEndian(h.fileSize, 8);
    assert b[n + 8..n + 12] == LittleEndian(h.permissions, 4);
    assert b[n + 12..n + 20] == LittleEndian(h.offset, 8);
    LittleEndianRoundTrip(h.fileSize, 8);
    LittleEndianRoundTrip(h.permissions, 4);
    LittleEndianRoundTrip(h.offset, 8);
  }

  /** Any FS bytes are the encoding of the file header they decode to. */
  lemma FileHeaderBytesRoundTrip(b: bytes)
    requires |b| == FS
    ensures EncodeFileHeader(DecodeFileHeader(b)) == b
  {
    var n := NAME_LEN;
    FromLittleEndianRoundTrip(b[n..n + 8]);
    FromLittleEndianRoundTrip(b[n + 8..n + 12]);
    FromLittleEndianRoundTrip(b[n + 12..n + 20]);
    assert b == b[..n] + b[n..n + 8] + b[n + 8..n + 12] + b[n + 12..n + 20] + [b[n + 20], b[n + 21]];
  }

  /**
   * The filename field the builder stores for a relative path: the header is
   * zeroed, then at most NAME_LEN - 1 bytes of the C string are copied, so the
   * field always ends in NUL padding.
   */
  function FilenameField(rel: bytes): (r: bytes)
    ensures |r| == NAME_LEN
  {
    var name := Truncate(CString(rel), NAME_LEN - 1);
    name + Repeat(NUL, NAME_LEN - |name|)
  }

  /** The name a reader sees in a stored field is the path, cut at NAME_LEN - 1 bytes. */
  lemma FilenameFieldName(rel: bytes)
    ensures CString(FilenameField(rel)) == Truncate(CString(rel), NAME_LEN - 1)
  {
    var name := Truncate(CString(rel), NAME_LEN - 1);
    assert NoNul(name);
    CStringUpToNul(name, Repeat(NUL, NAME_LEN - |name|));
  }
}
