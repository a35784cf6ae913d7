/**
 * Creating, extracting, listing and verifying archives.  An archive is the byte
 * string of its file: the archive header, then for every stored file its
 * header followed by its payload.  Readers walk it with a cursor, as the
 * `fread`/`fseek` calls on the open file do.
 */
module Archive {
  import opened Bytes
  import opened Format
  import opened Stream
  import opened Utils
  import Ppm

  // ---------------------------------------------------------------------------
  // create_archive

  datatype CreateError = NotADirectory | CannotCreate | HeaderWriteFailed | WalkAborted | NoFiles | HeaderUpdateFailed

  datatype CreateOutcome = Created(contents: bytes) | CreateAborted(why: CreateError)

  /** The header written before the walk: no files yet, and the archive is just this header. */
  function InitialHeader(password: bool): (h: ArchiveHeader)
    ensures h.Valid() && h.magic == MAGIC && h.fileCount == 0 && h.totalSize == HS
    ensures h.hasPassword == 1 <==> password
    ensures h.hasPassword <= 1
  {
    ArchiveHeader(MAGIC, 0, HS, if password then 1 else 0)
  }

  /** The header as rewritten at offset 0 after the walk, with its counts. */
  function FinalHeader(password: bool, b: Build): (h: ArchiveHeader)
    ensures h.Valid() && h.magic == MAGIC && h.fileCount == b.fileCount && h.totalSize == b.totalSize
    ensures h.hasPassword == InitialHeader(password).hasPassword
  {
    InitialHeader(password).(fileCount := b.fileCount, totalSize := b.totalSize)
  }

  /**
   * What `create_archive` produces from the directory tree `root` at `dirPath`:
   * `password` says whether a password was given, `opens` whether `fopen` of
   * the archive succeeds, and `capacity` how many bytes the archive file can hold.
   */
  function CreateSpec(root: Node, dirPath: bytes, password: bool, opens: bool, capacity: nat): CreateOutcome
    requires capacity <= LONG_MAX
  {
    if !root.Directory? then CreateAborted(NotADirectory)
    else if !opens then CreateAborted(CannotCreate)
    else
      var first := Put(Sink([], 0, capacity), EncodeArchiveHeader(InitialHeader(password)));
      if first.1 != HS then CreateAborted(HeaderWriteFailed)
      else match WalkDirectory(Build(first.0, 0, HS), dirPath, [], root)
        case None => CreateAborted(WalkAborted)
        case Some(b) =>
          if b.fileCount == 0 then CreateAborted(NoFiles)
          else
            var last := Put(b.out.(pos := 0), EncodeArchiveHeader(FinalHeader(password, b)));
            if last.1 != HS then CreateAborted(HeaderUpdateFailed) else Created(last.0.contents)
  }

  /** `create_archive`. */
  method CreateArchive(root: Node, dirPath: bytes, password: bool, opens: bool, capacity: nat)
    returns (r: CreateOutcome)
    requires capacity <= LONG_MAX
    ensures r == CreateSpec(root, dirPath, password, opens, capacity)
  {
    if !root.Directory? {
      return CreateAborted(NotADirectory);
    }
    if !opens {
      return CreateAborted(CannotCreate);
    }
    var archive := new OutFile.Open(capacity);
    var header := InitialHeader(password);
    var written := archive.Write(EncodeArchiveHeader(header));
    if written != HS {
      return CreateAborted(HeaderWriteFailed);
    }
    var counters := new Counters(header.fileCount, header.totalSize);
    var ok := ProcessDirectory(dirPath, [], root, archive, counters);
    if !ok {
      return CreateAborted(WalkAborted);
    }
    if counters.fileCount == 0 {
      return CreateAborted(NoFiles);
    }
    header := header.(fileCount := counters.fileCount, totalSize := counters.totalSize);
    archive.Rewind();
    written := archive.Write(EncodeArchiveHeader(header));
    if written != HS {
      return CreateAborted(HeaderUpdateFailed);
    }
    return Created(archive.contents);
  }

  // ---------------------------------------------------------------------------
  // Reading an archive

  datatype ReadError = TooSmall | BadMagic | PasswordProtected

  datatype HeaderCheck = HeaderOk(header: ArchiveHeader) | HeaderRejected(why: ReadError)

  /**
   * The checks every reader makes before the entry loop, in their order: the
   * size, the magic, and (for extraction only, `needPassword`) the password flag.
   */
  function CheckHeader(arc: bytes, passwordGiven: bool, needPassword: bool): HeaderCheck
  {
    if |arc| < HS then HeaderRejected(TooSmall)
    else
      var h := DecodeArchiveHeader(arc[..HS]);
      if h.magic != MAGIC then HeaderRejected(BadMagic)
      else if needPassword && h.hasPassword != 0 && !passwordGiven then HeaderRejected(PasswordProtected)
      else HeaderOk(h)
  }

  /** Each rejection happens exactly on its condition, and an accepted header is the decoded first HS bytes. */
  lemma CheckHeaderMeaning(arc: bytes, passwordGiven: bool, needPassword: bool)
    ensures var r := CheckHeader(arc, passwordGiven, needPassword);
      && (r == HeaderRejected(TooSmall) <==> |arc| < HS)
      && (r == HeaderRejected(BadMagic) <==> |arc| >= HS && arc[..8] != MAGIC)
      && (r == HeaderRejected(PasswordProtected) <==>
           |arc| >= HS && arc[..8] == MAGIC && needPassword && arc[18] != 0 && !passwordGiven)
      && (r.HeaderOk? <==> |arc| >= HS && arc[..8] == MAGIC && !(needPassword && arc[18] != 0 && !passwordGiven))
      && (r.HeaderOk? ==> r.header == DecodeArchiveHeader(arc[..HS]) && r.header.magic == MAGIC)
  {
  }

  /**
   * `fseek(archive, delta, SEEK_CUR)`: the unsigned size is passed as a `long`;
   * a target before the start or beyond LONG_MAX fails and leaves the cursor.
   */
  function SeekCur(pos: nat, delta: uint64): (r: (bool, nat))
    requires pos <= LONG_MAX
    ensures r.1 <= LONG_MAX
    ensures r.0 ==> r.1 == pos + (if delta <= LONG_MAX then delta else delta - TWO_64)
    ensures !r.0 ==> r.1 == pos
  {
    var target := pos + (if delta <= LONG_MAX then delta else delta - TWO_64);
    if target < 0 || target > LONG_MAX then (false, pos) else (true, target)
  }

  /** A seek by a size that keeps the cursor within LONG_MAX succeeds and lands at the sum. */
  lemma SeekForward(pos: nat, delta: uint64)
    requires pos + delta <= LONG_MAX
    ensures SeekCur(pos, delta) == (true, pos + delta)
  {
  }

  /** The entry header at `pos`, or None when fewer than FS bytes are left. */
  function EntryAt(arc: bytes, pos: nat): Option<FileHeader>
  {
    if pos + FS <= |arc| then
      Some(DecodeFileHeader(arc[pos..pos + FS]))
    else None
  }

  // ---------------------------------------------------------------------------
  // extract_archive

  /** The reader's cursor, the file system being written to, and `extracted_count`. */
  datatype Cursor = Cursor(pos: nat, disk: Disk, extracted: nat)

  datatype ExtractError = ExtractHeader(why: ReadError) | OutputDirFailed | ParentDirFailed | Incomplete(extracted: nat)

  datatype Extraction = Extracted(disk: Disk, extracted: nat, code: int) | ExtractAborted(why: ExtractError)

  /** The bytes written for an entry: a nonempty decompression of a compressed payload, or the payload itself. */
  function Restored(h: FileHeader, payload: bytes): bytes
  {
    if h.isCompressed == 0 then payload
    else match Ppm.Decompression(payload)
      case Some(d) => if |d| > 0 then d else payload
      case None => payload
  }

  /** `fopen(path, "wb")` succeeds: the path is not a directory and its directory exists. */
  predicate CanOpenForWrite(d: Disk, path: bytes) {
    |path| > 0 && path !in d.dirs && ParentExists(d, path)
  }

  /** The path an entry is extracted to: `output_dir/filename` in a 1024-byte buffer. */
  function OutputPath(outDir: bytes, h: FileHeader): (r: bytes)
    ensures |r| < 1024
  {
    Truncate(CString(outDir) + [SLASH] + CString(h.filename), 1023)
  }

  /** Skipping an entry's payload with a seek whose result is not checked. */
  function SkipPayload(st: Cursor, h: FileHeader): Cursor
    requires st.pos <= LONG_MAX
  {
    st.(pos := SeekCur(st.pos, h.fileSize).1)
  }

  /**
   * Extracting an entry whose output file `path` opened: the file is cut to
   * empty; if the whole payload can be read its restored bytes are written,
   * the permissions are set and the entry counts as extracted.
   */
  function WriteOutSpec(arc: bytes, pos: nat, d: Disk, path: bytes, extracted: nat, h: FileHeader): (r: Cursor)
    requires pos <= |arc|
    ensures r.pos <= |arc| && extracted <= r.extracted <= extracted + 1
    ensures r.extracted == extracted + 1 <==> pos + h.fileSize <= |arc|
    ensures r.extracted == extracted + 1 ==>
      r.pos == pos + h.fileSize
      && path in r.disk.files && r.disk.files[path] == Restored(h, arc[pos..pos + h.fileSize])
      && path in r.disk.modes && r.disk.modes[path] == h.permissions % 4096
    ensures r.extracted == extracted ==> path in r.disk.files && r.disk.files[path] == [] && r.disk.modes == d.modes
    ensures r.disk.dirs == d.dirs
    ensures forall p | p in d.files && p != path :: p in r.disk.files && r.disk.files[p] == d.files[p]
  {
    var emptied := d.(files := d.files[path := []]);
    if pos + h.fileSize > |arc| then Cursor(|arc|, emptied, extracted)
    else
      var data := Restored(h, arc[pos..pos + h.fileSize]);
      Cursor(pos + h.fileSize, emptied.(files := emptied.files[path := data], modes := emptied.modes[path := h.permissions % 4096]), extracted + 1)
  }

  /**
   * One pass of the extraction loop after the header `h` was read, the cursor
   * now at its payload.  None when the program aborts (a parent directory
   * cannot be made).
   */
  function ExtractEntry(arc: bytes, outDir: bytes, st: Cursor, h: FileHeader): (r: Option<Cursor>)
    requires st.pos <= |arc| <= LONG_MAX
    ensures r.Some? ==> r.value.pos <= LONG_MAX
    ensures r.Some? ==> st.extracted <= r.value.extracted <= st.extracted + 1
    ensures r.Some? && r.value.extracted == st.extracted + 1 ==> 0 < h.fileSize <= MAX_EXTRACT
  {
    if h.fileSize == 0 then Some(st)
    else if h.fileSize > MAX_EXTRACT then Some(SkipPayload(st, h))
    else
      var path := OutputPath(outDir, h);
      match ParentDirs(st.disk, path)
      case None => None
      case Some(d) =>
        if !CanOpenForWrite(d, path) then Some(SkipPayload(st.(disk := d), h))
        else Some(WriteOutSpec(arc, st.pos, d, path, st.extracted, h))
  }

  /** The extraction loop from entry `i` of `count`: it stops early at a short header read. */
  function ExtractLoop(arc: bytes, outDir: bytes, i: nat, count: nat, st: Cursor): (r: Option<Cursor>)
    requires i <= count && |arc| <= LONG_MAX && st.pos <= LONG_MAX
    ensures r.Some? ==> st.extracted <= r.value.extracted <= st.extracted + (count - i)
    decreases count - i
  {
    if i == count then Some(st)
    else match EntryAt(arc, st.pos)
      case None => Some(st)
      case Some(h) =>
        match ExtractEntry(arc, outDir, st.(pos := st.pos + FS), h)
        case None => None
        case Some(next) => ExtractLoop(arc, outDir, i + 1, count, next)
  }

  /** One pass of the extraction loop over an entry whose header could be read. */
  lemma ExtractStep(arc: bytes, outDir: bytes, i: nat, count: nat, st: Cursor, h: FileHeader)
    requires i < count && |arc| <= LONG_MAX && st.pos <= LONG_MAX && EntryAt(arc, st.pos) == Some(h)
    ensures var r := ExtractEntry(arc, outDir, st.(pos := st.pos + FS), h);
      ExtractLoop(arc, outDir, i, count, st) == if r.None? then None else ExtractLoop(arc, outDir, i + 1, count, r.value)
  {
  }

  /**
   * `extract_archive` of the archive `arc` into `outDir` on the disk `disk`.
   * With `verbose`, a short count aborts the program instead of returning -1.
   */
  function ExtractSpec(arc: bytes, outDir: bytes, passwordGiven: bool, verbose: bool, disk: Disk): (r: Extraction)
    requires |arc| <= LONG_MAX
    ensures r.Extracted? ==> |arc| >= HS && (r.code == 0 <==> r.extracted == DecodeArchiveHeader(arc[..HS]).fileCount)
    ensures r.Extracted? ==> r.code == 0 || r.code == -1
  {
    match CheckHeader(arc, passwordGiven, true)
    case HeaderRejected(why) => ExtractAborted(ExtractHeader(why))
    case HeaderOk(h) =>
      match CreateDirectory(disk, CString(outDir))
      case None => ExtractAborted(OutputDirFailed)
      case Some(d) =>
        match ExtractLoop(arc, outDir, 0, h.fileCount, Cursor(HS, d, 0))
        case None => ExtractAborted(ParentDirFailed)
        case Some(st) =>
          if st.extracted != h.fileCount && verbose then ExtractAborted(Incomplete(st.extracted))
          else Extracted(st.disk, st.extracted, if st.extracted == h.fileCount then 0 else -1)
  }

  /** The bytes `extract_archive` writes for a payload it has read; the code form of `Restored`. */
  method RestoreData(h: FileHeader, payload: bytes) returns (data: bytes)
    ensures data == Restored(h, payload)
  {
    data := payload;
    if h.isCompressed != 0 {
      var size, output := Ppm.Decompress(payload);
      if output != null && size > 0 {
        data := output[..size];
      }
    }
  }

  /** Extracting an entry whose output file opened: the file is cut to empty, then the payload is read and written; the code form of `WriteOutSpec`. */
  method WriteOut(arc: bytes, pos: nat, d: Disk, path: bytes, extracted: nat, h: FileHeader)
    returns (r: Cursor)
    requires pos <= |arc|
    ensures r == WriteOutSpec(arc, pos, d, path, extracted, h)
  {
    var disk := d.(files := d.files[path := []]);
    if pos + h.fileSize > |arc| {
      return Cursor(|arc|, disk, extracted);
    }
    var data := RestoreData(h, arc[pos..pos + h.fileSize]);
    disk := disk.(files := disk.files[path := data], modes := disk.modes[path := h.permissions % 4096]);
    return Cursor(pos + h.fileSize, disk, extracted + 1);
  }

  /** The body of the extraction loop for one entry whose header `h` was just read; the code form of `ExtractEntry`. */
  method ExtractOne(arc: bytes, outDir: bytes, st: Cursor, h: FileHeader) returns (r: Option<Cursor>)
    requires st.pos <= |arc| <= LONG_MAX
    ensures r == ExtractEntry(arc, outDir, st, h)
  {
    if h.fileSize == 0 {
      return Some(st);
    }
    if h.fileSize > MAX_EXTRACT {
      return Some(st.(pos := SeekCur(st.pos, h.fileSize).1));
    }
    var path := OutputPath(outDir, h);
    var made := CreateParentDirs(st.disk, path);
    if made.None? {
      return None;
    }
    if !CanOpenForWrite(made.value, path) {
      return Some(Cursor(SeekCur(st.pos, h.fileSize).1, made.value, st.extracted));
    }
    var next := WriteOut(arc, st.pos, made.value, path, st.extracted, h);
    return Some(next);
  }

  /** The loop of `extract_archive` over `count` entries, into the disk `d` where the output directory exists. */
  method ExtractEntries(arc: bytes, outDir: bytes, count: uint16, d: Disk) returns (r: Option<Cursor>)
    requires |arc| <= LONG_MAX
    ensures r == ExtractLoop(arc, outDir, 0, count, Cursor(HS, d, 0))
  {
    ghost var goal := ExtractLoop(arc, outDir, 0, count, Cursor(HS, d, 0));
    var st := Cursor(HS, d, 0);
    var i: nat := 0;
    while i < count
      invariant i <= count && st.pos <= LONG_MAX
      invariant ExtractLoop(arc, outDir, i, count, st) == goal
    {
      if st.pos + FS > |arc| {
        break;
      }
      var h := DecodeFileHeader(arc[st.pos..st.pos + FS]);
      assert EntryAt(arc, st.pos) == Some(h);
      ExtractStep(arc, outDir, i, count, st, h);
      var next := ExtractOne(arc, outDir, st.(pos := st.pos + FS), h);
      if next.None? {
        return None;
      }
      st := next.value;
      i := i + 1;
    }
    return Some(st);
  }

  /** `extract_archive`. */
  method ExtractArchive(arc: bytes, outDir: bytes, passwordGiven: bool, verbose: bool, disk: Disk)
    returns (r: Extraction)
    requires |arc| <= LONG_MAX
    ensures r == ExtractSpec(arc, outDir, passwordGiven, verbose, disk)
  {
    var check := CheckHeader(arc, passwordGiven, true);
    if check.HeaderRejected? {
      return ExtractAborted(ExtractHeader(check.why));
    }
    var header := check.header;
    var made := CreateDirectory(disk, CString(outDir));
    if made.None? {
      return ExtractAborted(OutputDirFailed);
    }
    var done := ExtractEntries(arc, outDir, header.fileCount, made.value);
    if done.None? {
      return ExtractAborted(ParentDirFailed);
    }
    var st := done.value;
    if st.extracted != header.fileCount && verbose {
      return ExtractAborted(Incomplete(st.extracted));
    }
    return Extracted(st.disk, st.extracted, if st.extracted == header.fileCount then 0 else -1);
  }

  // ---------------------------------------------------------------------------
  // list_archive_contents

  /** One printed line: the name, the stored size, whether it is compressed, and `permissions & 0777`. */
  datatype Row = Row(name: bytes, size: uint64, compressed: bool, perms: nat)

  datatype Listing = Listing(fileCount: uint16, totalSize: uint64, hasPassword: bool, rows: seq<Row>, total: uint64)
                   | ListAborted(why: ReadError)

  function RowOf(h: FileHeader): Row
  {
    Row(CString(h.filename), h.fileSize, h.isCompressed != 0, h.permissions % 512)
  }

  /**
   * The rows listed so far, `acc`, followed by those of entries `i` to `count`;
   * the payload is skipped with an unchecked seek.
   */
  function ListRows(arc: bytes, i: nat, count: nat, pos: nat, acc: seq<Row>): seq<Row>
    requires i <= count && |arc| <= LONG_MAX && pos <= LONG_MAX
    decreases count - i
  {
    if i == count then acc
    else match EntryAt(arc, pos)
      case None => acc
      case Some(h) => ListRows(arc, i + 1, count, SeekCur(pos + FS, h.fileSize).1, acc + [RowOf(h)])
  }

  /** The listing keeps the rows already printed and adds at most one per remaining entry. */
  lemma {:induction false} ListRowsBounds(arc: bytes, i: nat, count: nat, pos: nat, acc: seq<Row>)
    requires i <= count && |arc| <= LONG_MAX && pos <= LONG_MAX
    ensures |acc| <= |ListRows(arc, i, count, pos, acc)| <= |acc| + count - i
    ensures ListRows(arc, i, count, pos, acc)[..|acc|] == acc
    decreases count - i
  {
    if i < count && EntryAt(arc, pos).Some? {
      var h := EntryAt(arc, pos).value;
      var next, acc' := SeekCur(pos + FS, h.fileSize).1, acc + [RowOf(h)];
      ListStep(arc, i, count, pos, acc, h);
      ListRowsBounds(arc, i + 1, count, next, acc');
      PrefixOfPrefix(ListRows(arc, i + 1, count, next, acc'), acc', acc);
    }
  }

  lemma PrefixOfPrefix<T>(r: seq<T>, a: seq<T>, b: seq<T>)
    requires |a| <= |r| && r[..|a|] == a && |b| <= |a| && a[..|b|] == b
    ensures r[..|b|] == b
  {
    assert r[..|b|] == r[..|a|][..|b|];
  }

  /** One line of the listing loop, for an entry whose header could be read. */
  lemma ListStep(arc: bytes, i: nat, count: nat, pos: nat, acc: seq<Row>, h: FileHeader)
    requires i < count && |arc| <= LONG_MAX && pos <= LONG_MAX && EntryAt(arc, pos) == Some(h)
    ensures ListRows(arc, i, count, pos, acc) == ListRows(arc, i + 1, count, SeekCur(pos + FS, h.fileSize).1, acc + [RowOf(h)])
  {
  }

  function SumSizes(rows: seq<Row>): nat {
    if |rows| == 0 then 0 else SumSizes(rows[..|rows| - 1]) + rows[|rows| - 1].size
  }

  /** TOTAL as the 64-bit counter accumulates it, row by row. */
  function Total(rows: seq<Row>): uint64 {
    if |rows| == 0 then 0 else Add64(Total(rows[..|rows| - 1]), rows[|rows| - 1].size)
  }

  lemma TotalAppend(rows: seq<Row>, row: Row)
    ensures Total(rows + [row]) == Add64(Total(rows), row.size)
  {
    assert (rows + [row])[..|rows|] == rows;
  }

  /** The 64-bit TOTAL is the sum of the listed sizes modulo 2^64. */
  lemma {:induction false} TotalIsSum(rows: seq<Row>)
    ensures Total(rows) as nat == SumSizes(rows) % TWO_64
  {
    if |rows| > 0 {
      var init := rows[..|rows| - 1];
      TotalIsSum(init);
      AddMod(Total(init) as nat, SumSizes(init), rows[|rows| - 1].size as nat);
    }
  }

  /** What `list_archive_contents` prints: the header fields, the rows, and TOTAL. */
  function ListSpec(arc: bytes): Listing
    requires |arc| <= LONG_MAX
  {
    match CheckHeader(arc, false, false)
    case HeaderRejected(why) => ListAborted(why)
    case HeaderOk(h) =>
      var rows := ListRows(arc, 0, h.fileCount, HS, []);
      Listing(h.fileCount, h.totalSize, h.hasPassword != 0, rows, SumSizes(rows) % TWO_64)
  }

  /** The loop of `list_archive_contents` over `count` entries, accumulating TOTAL. */
  method ListEntries(arc: bytes, count: uint16) returns (rows: seq<Row>, total: uint64)
    requires |arc| <= LONG_MAX
    ensures rows == ListRows(arc, 0, count, HS, []) && total == Total(rows)
  {
    rows, total := [], 0;
    ghost var goal := ListRows(arc, 0, count, HS, []);
    var pos: nat := HS;
    var i: nat := 0;
    while i < count
      invariant i <= count && pos <= LONG_MAX
      invariant ListRows(arc, i, count, pos, rows) == goal
      invariant total == Total(rows)
    {
      if pos + FS > |arc| {
        break;
      }
      var h := DecodeFileHeader(arc[pos..pos + FS]);
      assert EntryAt(arc, pos) == Some(h);
      ListStep(arc, i, count, pos, rows, h);
      var row := RowOf(h);
      TotalAppend(rows, row);
      total := Add64(total, row.size);
      rows := rows + [row];
      pos := SeekCur(pos + FS, h.fileSize).1;
      i := i + 1;
    }
  }

  /**
   * `list_archive_contents`: the rows are those of ListRows, and TOTAL, kept in
   * a 64-bit counter, is their sizes' sum modulo 2^64.
   */
  method ListArchive(arc: bytes) returns (r: Listing)
    requires |arc| <= LONG_MAX
    ensures r == ListSpec(arc)
    ensures r.Listing? ==> |r.rows| <= r.fileCount && r.total == SumSizes(r.rows) % TWO_64
  {
    var check := CheckHeader(arc, false, false);
    if check.HeaderRejected? {
      return ListAborted(check.why);
    }
    var header := check.header;
    var rows, total := ListEntries(arc, header.fileCount);
    TotalIsSum(rows);
    ListRowsBounds(arc, 0, header.fileCount, HS, []);
    return Listing(header.fileCount, header.totalSize, header.hasPassword != 0, rows, total);
  }

  // ---------------------------------------------------------------------------
  // verify_archive

  datatype VerifyError = VerifyHeader(why: ReadError) | SkipFailed(index: nat) | CountMismatch(valid: nat)

  /** On success, the indices of the entries whose offset field did not match (each only warned about). */
  datatype Verification = Verified(valid: nat, mismatches: seq<nat>) | VerifyAborted(why: VerifyError)

  /** The state of the verification loop: cursor, `current_offset`, `valid_files` and the warnings so far. */
  datatype Progress = Progress(pos: nat, expected: uint64, valid: nat, mismatches: seq<nat>)

  /** The loop state after entry `i` with header `h`, whose payload ends at `next`. */
  function Advance(p: Progress, i: nat, h: FileHeader, next: nat): Progress
  {
    var mismatches := if h.offset != p.expected then p.mismatches + [i] else p.mismatches;
    Progress(next, (p.expected + FS + h.fileSize) % TWO_64, p.valid + 1, mismatches)
  }

  /** The verification loop from entry `i` of `count`; an `fseek` failure aborts. */
  function VerifyLoop(arc: bytes, i: nat, count: nat, p: Progress): (r: Result<Progress>)
    requires i <= count && |arc| <= LONG_MAX && p.pos <= LONG_MAX
    decreases count - i, 1
  {
    if i == count || p.pos + FS > |arc| then Ok(p)
    else VerifyEntry(arc, i, count, p)
  }

  /** One pass of the loop once a whole header can be read at the cursor: read it, skip its payload, go on. */
  function VerifyEntry(arc: bytes, i: nat, count: nat, p: Progress): (r: Result<Progress>)
    requires i < count && |arc| <= LONG_MAX && p.pos + FS <= |arc|
    decreases count - i, 0
  {
    var h := DecodeFileHeader(arc[p.pos..p.pos + FS]);
    var seek := SeekCur(p.pos + FS, h.fileSize);
    if !seek.0 then Fail(i)
    else VerifyLoop(arc, i + 1, count, Advance(p, i, h, seek.1))
  }

  /** One pass of the verification loop over an entry whose payload could be skipped. */
  lemma VerifyStep(arc: bytes, i: nat, count: nat, p: Progress, h: FileHeader)
    requires i < count && |arc| <= LONG_MAX && p.pos <= LONG_MAX
    requires EntryAt(arc, p.pos) == Some(h) && SeekCur(p.pos + FS, h.fileSize).0
    ensures VerifyLoop(arc, i, count, p) == VerifyLoop(arc, i + 1, count, Advance(p, i, h, SeekCur(p.pos + FS, h.fileSize).1))
  {
  }

  datatype Result<T> = Ok(value: T) | Fail(index: nat)

  /** What `verify_archive` reports for `arc`. */
  function VerifySpec(arc: bytes): Verification
    requires |arc| <= LONG_MAX
  {
    match CheckHeader(arc, false, false)
    case HeaderRejected(why) => VerifyAborted(VerifyHeader(why))
    case HeaderOk(h) =>
      match VerifyLoop(arc, 0, h.fileCount, Progress(HS, HS, 0, []))
      case Fail(i) => VerifyAborted(SkipFailed(i))
      case Ok(p) => if p.valid == h.fileCount then Verified(p.valid, p.mismatches) else VerifyAborted(CountMismatch(p.valid))
  }

  /** `verify_archive`. */
  method VerifyArchive(arc: bytes) returns (r: Verification)
    requires |arc| <= LONG_MAX
    ensures r == VerifySpec(arc)
  {
    var check := CheckHeader(arc, false, false);
    if check.HeaderRejected? {
      return VerifyAborted(VerifyHeader(check.why));
    }
    var header := check.header;
    ghost var goal := VerifyLoop(arc, 0, header.fileCount, Progress(HS, HS, 0, []));
    var p := Progress(HS, HS, 0, []);
    var i: nat := 0;
    while i < header.fileCount
      invariant i <= header.fileCount && p.pos <= LONG_MAX
      invariant VerifyLoop(arc, i, header.fileCount, p) == goal
    {
      if p.pos + FS > |arc| {
        break;
      }
      var h := DecodeFileHeader(arc[p.pos..p.pos + FS]);
      assert EntryAt(arc, p.pos) == Some(h);
      var seek := SeekCur(p.pos + FS, h.fileSize);
      if !seek.0 {
        return VerifyAborted(SkipFailed(i));
      }
      VerifyStep(arc, i, header.fileCount, p, h);
      p := Advance(p, i, h, seek.1);
      i := i + 1;
    }
    if p.valid != header.fileCount {
      return VerifyAborted(CountMismatch(p.valid));
    }
    return Verified(p.valid, p.mismatches);
  }

  // ---------------------------------------------------------------------------
  // is_archive_file

  /** The two archive suffixes, ".zov" and ".fem". */
  const ZOV: bytes := [0x2E, 0x7A, 0x6F, 0x76]
  const FEM: bytes := [0x2E, 0x66, 0x65, 0x6D]

  /** `is_archive_file`: a name whose suffix from the last dot is ".zov" or ".fem"; false for NULL. */
  function IsArchiveFile(filename: Option<bytes>): (r: bool)
    ensures r ==> filename.Some?
  {
    match filename
    case None => false
    case Some(f) =>
      match LastIndexOf(f, DOT)
      case None => false
      case Some(k) => f[k..] == ZOV || f[k..] == FEM
  }

  /** A suffix that starts with the only dot it has begins at the name's last dot. */
  lemma SuffixAtLastDot(f: bytes, e: bytes)
    requires |e| > 0 && e[0] == DOT && (forall j :: 0 < j < |e| ==> e[j] != DOT) && EndsWith(f, e)
    ensures LastIndexOf(f, DOT) == Some(|f| - |e|)
  {
    var p := |f| - |e|;
    assert f[p] == e[0];
    forall j | p < j < |f| ensures f[j] != DOT {
      assert f[j] == e[j - p];
    }
  }

  /** An archive name is one that ends in ".zov" or ".fem"; NULL is none. */
  lemma IsArchiveFileMeaning(filename: Option<bytes>)
    ensures IsArchiveFile(filename) <==> filename.Some? && (EndsWith(filename.value, ZOV) || EndsWith(filename.value, FEM))
  {
    if filename.Some? {
      var f := filename.value;
      if EndsWith(f, ZOV) {
        SuffixAtLastDot(f, ZOV);
      }
      if EndsWith(f, FEM) {
        SuffixAtLastDot(f, FEM);
      }
    }
  }
}
