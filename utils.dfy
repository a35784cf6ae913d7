/**
 * The archive builder's helpers: the compression blacklist, path building, the
 * directories the extractor creates, and the per-file and per-directory steps
 * that append entries to the archive and keep its running count and size.
 */
module Utils {
  import opened Bytes
  import opened Format
  import opened Stream
  import Ppm

  /** PATH_MAX: path buffers hold at most PATH_MAX - 1 bytes and a NUL. */
  const PATH_MAX: nat := 4096

  // ---------------------------------------------------------------------------
  // Which files are worth compressing

  /** `tolower` in the C locale. */
  function ToLower(c: uint8): uint8 {
    if 65 <= c <= 90 then c + 32 else c
  }

  /** `strcasecmp(a, b) == 0`. */
  predicate EqualIgnoreCase(a: bytes, b: bytes) {
    |a| == |b| && forall i :: 0 <= i < |a| ==> ToLower(a[i]) == ToLower(b[i])
  }

  /** Extensions of formats that are already compressed. */
  const BLACKLIST: seq<bytes> := [
    B(".zip"), B(".gz"), B(".bz2"), B(".xz"), B(".7z"), B(".rar"), B(".tar"),
    B(".jpg"), B(".jpeg"), B(".png"), B(".gif"), B(".bmp"), B(".tiff"),
    B(".mp3"), B(".mp4"), B(".avi"), B(".mkv"), B(".flac"), B(".wav"),
    B(".pdf"), B(".doc"), B(".docx"), B(".xls"), B(".ppt")]

  /** The extension `ext` matches one of the first `n` blacklist entries. */
  predicate MatchesAmong(ext: bytes, n: nat)
    requires n <= |BLACKLIST|
  {
    n > 0 && (MatchesAmong(ext, n - 1) || EqualIgnoreCase(ext, BLACKLIST[n - 1]))
  }

  lemma {:induction false} MatchesAmongMeaning(ext: bytes, n: nat)
    requires n <= |BLACKLIST|
    ensures MatchesAmong(ext, n) <==> exists j :: 0 <= j < n && EqualIgnoreCase(ext, BLACKLIST[j])
  {
    if n > 0 {
      MatchesAmongMeaning(ext, n - 1);
    }
  }

  /** The extension `ext` (which starts at the last dot) matches an entry of the blacklist. */
  predicate Blacklisted(ext: bytes) {
    exists j :: 0 <= j < |BLACKLIST| && EqualIgnoreCase(ext, BLACKLIST[j])
  }

  /** The builder's decision: no dot, or a suffix from the last dot that is not blacklisted. */
  predicate Compressible(filename: bytes) {
    match LastIndexOf(filename, DOT)
    case None => true
    case Some(k) => !Blacklisted(filename[k..])
  }

  predicate EndsWithIgnoreCase(s: bytes, suffix: bytes) {
    |suffix| <= |s| && EqualIgnoreCase(s[|s| - |suffix|..], suffix)
  }

  /** Every blacklist entry is a dot followed by dot-free text. */
  lemma BlacklistShape()
    ensures forall j :: 0 <= j < |BLACKLIST| ==>
      |BLACKLIST[j]| > 0 && BLACKLIST[j][0] == DOT && forall i :: 0 < i < |BLACKLIST[j]| ==> BLACKLIST[j][i] != DOT
  {
  }

  /** A name is compressible exactly when it does not end, ignoring case, with a blacklisted extension. */
  lemma CompressibleMeaning(filename: bytes)
    ensures Compressible(filename) <==> forall j :: 0 <= j < |BLACKLIST| ==> !EndsWithIgnoreCase(filename, BLACKLIST[j])
  {
    BlacklistShape();
    var dot := LastIndexOf(filename, DOT);
    forall j | 0 <= j < |BLACKLIST| && EndsWithIgnoreCase(filename, BLACKLIST[j])
      ensures dot == Some(|filename| - |BLACKLIST[j]|)
    {
      var e, p := BLACKLIST[j], |filename| - |BLACKLIST[j]|;
      assert ToLower(filename[p]) == ToLower(e[0]);
      forall i | p < i < |filename| ensures filename[i] != DOT {
        assert ToLower(filename[i]) == ToLower(e[i - p]);
      }
    }
  }

  /** `should_compress_file`: 1 unless the name's extension is on the blacklist. */
  method ShouldCompressFile(filename: bytes) returns (r: int)
    ensures r == 0 || r == 1
    ensures r == 1 <==> Compressible(filename)
    ensures r == 0 <==> exists j :: 0 <= j < |BLACKLIST| && EndsWithIgnoreCase(filename, BLACKLIST[j])
  {
    CompressibleMeaning(filename);
    var dot := LastIndexOf(filename, DOT);
    if dot.None? {
      return 1;
    }
    var ext := filename[dot.value..];
    MatchesAmongMeaning(ext, |BLACKLIST|);
    var i: nat := 0;
    while i < |BLACKLIST|
      invariant 0 <= i <= |BLACKLIST| && !MatchesAmong(ext, i)
    {
      if EqualIgnoreCase(ext, BLACKLIST[i]) {
        assert MatchesAmong(ext, i + 1);
        return 0;
      }
      i := i + 1;
    }
    return 1;
  }

  // ---------------------------------------------------------------------------
  // Paths

  /** The relative path of a directory entry: `name` at the root, `rel/name` below it, cut to fit PATH_MAX. */
  function JoinRel(rel: bytes, name: bytes): (r: bytes)
    ensures |r| < PATH_MAX
  {
    if |rel| == 0 then Truncate(name, PATH_MAX - 1) else Truncate(rel + [SLASH] + name, PATH_MAX - 1)
  }

  /** The path `base/rel` the builder opens for an entry, cut to fit PATH_MAX. */
  function EntryPath(base: bytes, rel: bytes): (r: bytes)
    ensures |r| < PATH_MAX
  {
    Truncate(base + [SLASH] + rel, PATH_MAX - 1)
  }

  /**
   * Cutting a joined path at its last slash gives back the parent's path and the
   * entry name, as long as nothing was truncated.
   */
  lemma JoinRelSplit(rel: bytes, name: bytes)
    requires |rel| > 0 && |rel| + 1 + |name| < PATH_MAX
    requires forall i :: 0 <= i < |name| ==> name[i] != SLASH
    ensures var p := JoinRel(rel, name);
      LastIndexOf(p, SLASH) == Some(|rel|) && p[..|rel|] == rel && p[|rel| + 1..] == name
  {
    var p := rel + [SLASH] + name;
    assert JoinRel(rel, name) == p;
    assert p[|rel|] == SLASH;
    assert forall j :: |rel| < j < |p| ==> p[j] == name[j - |rel| - 1];
  }

  /** At the root a joined path is the bare name and it has no slash. */
  lemma JoinRelAtRoot(name: bytes)
    requires |name| < PATH_MAX
    requires forall i :: 0 <= i < |name| ==> name[i] != SLASH
    ensures JoinRel([], name) == name && LastIndexOf(JoinRel([], name), SLASH).None?
  {
  }

  // ---------------------------------------------------------------------------
  // The directories and files the extractor sees

  /**
   * A file system: the directories that exist, the regular files with their
   * contents, and the permission bits set on them.
   */
  datatype Disk = Disk(dirs: set<bytes>, files: map<bytes, bytes>, modes: map<bytes, nat>)

  /** `stat(path)` succeeds. */
  predicate Exists(d: Disk, path: bytes) {
    path in d.dirs || path in d.files
  }

  /** The directory that would contain `path` exists (a path with no slash, or only a leading one, is in an existing directory). */
  predicate ParentExists(d: Disk, path: bytes) {
    match LastIndexOf(path, SLASH)
    case None => true
    case Some(k) => k == 0 || path[..k] in d.dirs
  }

  /** `mkdir(path, 0755)` succeeds. */
  predicate CanMake(d: Disk, path: bytes) {
    |path| > 0 && !Exists(d, path) && ParentExists(d, path)
  }

  /**
   * `create_directory`: nothing happens when the path exists, a failing `mkdir`
   * aborts the program (None), and otherwise the directory is added.
   */
  function CreateDirectory(d: Disk, path: bytes): (r: Option<Disk>)
    ensures r.None? <==> !Exists(d, path) && !CanMake(d, path)
    ensures r.Some? ==> Exists(r.value, path) && r.value.files == d.files && r.value.modes == d.modes
    ensures r.Some? ==> d.dirs <= r.value.dirs <= d.dirs + {path}
    ensures Exists(d, path) ==> r == Some(d)
    ensures !Exists(d, path) && r.Some? ==> r.value.dirs == d.dirs + {path}
  {
    if Exists(d, path) then Some(d)
    else if CanMake(d, path) then Some(d.(dirs := d.dirs + {path}))
    else None
  }

  /** The directory part of a path as `create_parent_dirs` computes it, if the path has a slash. */
  function ParentDir(filepath: bytes): Option<bytes>
  {
    var p := Truncate(CString(filepath), PATH_MAX - 1);
    match LastIndexOf(p, SLASH)
    case None => None
    case Some(k) => Some(p[..k])
  }

  /**
   * There is a parent directory exactly when the (cut) path has a slash, and
   * it is the part before the last slash.
   */
  lemma ParentDirMeaning(filepath: bytes)
    ensures var p, r := Truncate(CString(filepath), PATH_MAX - 1), ParentDir(filepath);
      && (r.Some? <==> exists i :: 0 <= i < |p| && p[i] == SLASH)
      && (r.Some? ==>
           |r.value| < |p| && p[|r.value|] == SLASH && p[..|r.value|] == r.value
           && forall i :: |r.value| < i < |p| ==> p[i] != SLASH)
  {
  }

  /** What `create_parent_dirs` does to the disk: create the one directory its path is in, if any. */
  function ParentDirs(d: Disk, filepath: bytes): Option<Disk>
  {
    match ParentDir(filepath)
    case None => Some(d)
    case Some(p) => CreateDirectory(d, p)
  }

  /**
   * Only one level is created: for the path `o/a/b/f` under an existing `o`,
   * `create_parent_dirs` tries `mkdir("o/a/b")`, which fails because `o/a` is
   * missing, and the program aborts.
   */
  lemma NestedParentAborts()
    ensures var o, f := [111], [111, 47, 97, 47, 98, 47, 102];
      && ParentDir(f) == Some([111, 47, 97, 47, 98])
      && ParentDirs(Disk({o}, map[], map[]), f).None?
  {
    var f: bytes := [111, 47, 97, 47, 98, 47, 102];
    CStringUpToNul(f, []);
    assert f + [] == f;
    assert Truncate(CString(f), PATH_MAX - 1) == f;
    assert LastIndexOf(f, SLASH) == Some(5);
    assert f[..5] == [111, 47, 97, 47, 98];
    assert LastIndexOf(f[..5], SLASH) == Some(3);
  }

  /** The copying half of `strncpy(path, filepath, PATH_MAX - 1)`: bytes up to the first NUL or the limit. */
  method CopyName(path: array<uint8>, filepath: bytes) returns (i: nat)
    requires path.Length == PATH_MAX
    modifies path
    ensures i == |Truncate(CString(filepath), PATH_MAX - 1)|
    ensures path[..i] == Truncate(CString(filepath), PATH_MAX - 1)
  {
    i := 0;
    while i < PATH_MAX - 1 && i < |filepath| && filepath[i] != NUL
      invariant i <= PATH_MAX - 1 && i <= |filepath|
      invariant NoNul(filepath[..i]) && path[..i] == filepath[..i]
    {
      path[i] := filepath[i];
      i := i + 1;
    }
    CStringAtLeast(filepath, i);
    if i < PATH_MAX - 1 {
      CStringUpToNul(filepath[..i], filepath[i..]);
      assert filepath[..i] + filepath[i..] == filepath;
    }
  }

  /** The padding half of `strncpy`, and the terminator the caller stores at the end. */
  method PadNul(path: array<uint8>, i: nat, ghost name: bytes)
    requires path.Length == PATH_MAX && i == |name| < PATH_MAX && path[..i] == name
    modifies path
    ensures path[..] == name + Repeat(NUL, PATH_MAX - |name|)
  {
    var j := i;
    while j < PATH_MAX
      invariant i <= j <= PATH_MAX
      invariant path[..j] == name + Repeat(NUL, j - i)
    {
      path[j] := NUL;
      j := j + 1;
    }
  }

  /** `strncpy(path, filepath, PATH_MAX - 1); path[PATH_MAX - 1] = 0`: the C string, cut and NUL-padded. */
  method CopyPath(path: array<uint8>, filepath: bytes)
    requires path.Length == PATH_MAX
    modifies path
    ensures var name := Truncate(CString(filepath), PATH_MAX - 1);
      path[..] == name + Repeat(NUL, PATH_MAX - |name|)
  {
    var i := CopyName(path, filepath);
    PadNul(path, i, Truncate(CString(filepath), PATH_MAX - 1));
  }

  /** Writing a NUL at `k` inside the C string of a padded buffer cuts that string at `k`. */
  lemma CutAt(buf: bytes, name: bytes, k: nat)
    requires NoNul(name) && k < |name| <= |buf| && buf == name + Repeat(NUL, |buf| - |name|)
    ensures CString(buf[k := NUL]) == name[..k]
  {
    var tail := [NUL] + name[k + 1..] + Repeat(NUL, |buf| - |name|);
    assert buf[k := NUL] == name[..k] + tail;
    CStringUpToNul(name[..k], tail);
  }

  /**
   * The buffer work of `create_parent_dirs`: copy the path into a PATH_MAX
   * buffer and cut it at the last slash; None when there is no slash.
   */
  method ParentPath(filepath: bytes) returns (r: Option<bytes>)
    ensures r == ParentDir(filepath)
  {
    var path := new uint8[PATH_MAX];
    CopyPath(path, filepath);
    ghost var name := Truncate(CString(filepath), PATH_MAX - 1);
    ghost var before := path[..];
    CStringUpToNul(name, Repeat(NUL, PATH_MAX - |name|));
    assert CString(before) == name;
    var slash := LastIndexOf(CString(path[..]), SLASH);
    if slash.None? {
      return None;
    }
    var k := slash.value;
    path[k] := NUL;
    assert path[..] == before[k := NUL];
    CutAt(before, name, k);
    return Some(CString(path[..]));
  }

  /**
   * `create_parent_dirs`: create the directory the path is in.  A `mkdir`
   * failure aborts (None); the C function returns 0 on every other path.
   */
  method CreateParentDirs(d: Disk, filepath: bytes) returns (r: Option<Disk>)
    ensures r == ParentDirs(d, filepath)
  {
    var parent := ParentPath(filepath);
    if parent.None? {
      return Some(d);
    }
    r := CreateDirectory(d, parent.value);
  }

  // ---------------------------------------------------------------------------
  // The directory tree the builder walks

  /** How far reading a regular file gets: `fopen` fails, `fread` comes up short, or all is read. */
  datatype Access = Readable | OpenFails | ReadFails

  /**
   * What `stat` reports for a directory entry: a regular file (its bytes, its
   * `st_mode` and how reading it goes), a directory (its `readdir` listing in
   * order, and whether `opendir` succeeds), anything else, or an entry that has
   * vanished so that `stat` fails.
   */
  datatype Node =
    | Regular(data: filedata, mode: uint32, access: Access)
    | Directory(entries: seq<DirEntry>, openable: bool)
    | Special
    | Vanished

  datatype DirEntry = DirEntry(name: bytes, node: Node)

  /** The builder's state: the archive being written and the counters kept in its header. */
  datatype Build = Build(out: Sink, fileCount: uint16, totalSize: uint64)

  /**
   * The payload stored for a file and whether it is the compressed one: the
   * encoding is used when compression was tried and came out strictly smaller.
   */
  function StoredPayload(filepath: bytes, data: filedata): (r: (bool, filedata))
    ensures r.0 <==> Compressible(filepath) && |data| > 100 && Ppm.Compression(data).Some?
    ensures r.0 ==> r.1 == Ppm.Compression(data).value && 0 < |r.1| < |data|
    ensures !r.0 ==> r.1 == data
  {
    if Compressible(filepath) && |data| > 100 && Ppm.Compression(data).Some? then
      (true, Ppm.Compression(data).value)
    else
      (false, data)
  }

  /** The header written in front of a stored file. */
  function EntryHeader(rel: bytes, mode: uint32, offset: uint64, compressed: bool, payload: filedata): (h: FileHeader)
    ensures h.Valid() && h.fileSize == |payload| && h.offset == offset && h.permissions == mode
    ensures CString(h.filename) == Truncate(CString(rel), NAME_LEN - 1)
    ensures h.algorithm == ALGO_PPM && (h.isCompressed == 1 <==> compressed) && h.isCompressed <= 1
  {
    FilenameFieldName(rel);
    FileHeader(FilenameField(rel), |payload|, mode, offset, if compressed then 1 else 0, ALGO_PPM)
  }

  /**
   * `process_single_file` on the builder's state: None when the program aborts
   * (`fopen` fails); an empty file or a short read leaves the state as it was;
   * otherwise the header and payload are written, and the counters advance only
   * when both writes were complete.
   */
  function AddFile(b: Build, filepath: bytes, rel: bytes, f: Node): (r: Option<Build>)
    requires f.Regular? && b.out.Valid()
    ensures r.None? <==> f.access == OpenFails
    ensures r.Some? ==> r.value.out.Valid() && r.value.out.capacity == b.out.capacity
  {
    if f.access == OpenFails then None
    else if |f.data| == 0 || f.access == ReadFails then Some(b)
    else
      var (compressed, payload) := StoredPayload(filepath, f.data);
      var h := EntryHeader(rel, f.mode, b.totalSize, compressed, payload);
      Some(AppendEntry(b, h, payload))
  }

  /**
   * The two `fwrite`s of an entry and the counter update that follows only
   * when both were complete.
   */
  function AppendEntry(b: Build, h: FileHeader, payload: bytes): (r: Build)
    requires b.out.Valid() && h.Valid() && h.fileSize == |payload|
    ensures r.out.Valid() && r.out.capacity == b.out.capacity
  {
    var headerWrite := Put(b.out, EncodeFileHeader(h));
    var dataWrite := Put(headerWrite.0, payload);
    if headerWrite.1 != FS || dataWrite.1 != |payload| then b.(out := dataWrite.0)
    else Build(dataWrite.0, (b.fileCount + 1) % 0x1_0000, (b.totalSize + FS + |payload|) % TWO_64)
  }

  const DOT_NAME: bytes := [DOT]
  const DOTDOT_NAME: bytes := [DOT, DOT]

  /** One `readdir` entry of the directory at `rel`: skipped, recursed into, added, or an abort. */
  function WalkEntry(b: Build, base: bytes, rel: bytes, e: DirEntry): (r: Option<Build>)
    requires b.out.Valid()
    ensures r.Some? ==> r.value.out.Valid() && r.value.out.capacity == b.out.capacity
    decreases e
  {
    if e.name == DOT_NAME || e.name == DOTDOT_NAME then Some(b)
    else
      var newRel := JoinRel(rel, e.name);
      match e.node
      case Vanished => Some(b)
      case Directory(_, _) => WalkDirectory(b, base, newRel, e.node)
      case Regular(_, _, _) => AddFile(b, EntryPath(base, newRel), newRel, e.node)
      case Special => None
  }

  /** `process_directory`: an unopenable directory aborts; otherwise its entries are walked in order. */
  function WalkDirectory(b: Build, base: bytes, rel: bytes, dir: Node): (r: Option<Build>)
    requires b.out.Valid() && dir.Directory?
    ensures r.Some? ==> r.value.out.Valid() && r.value.out.capacity == b.out.capacity
    decreases dir
  {
    if !dir.openable then None else WalkEntries(Some(b), base, rel, dir.entries)
  }

  /** The entries `es` walked in order from state `b`, stopping at the first abort. */
  function WalkEntries(b: Option<Build>, base: bytes, rel: bytes, es: seq<DirEntry>): (r: Option<Build>)
    requires b.Some? ==> b.value.out.Valid()
    ensures r.Some? ==> b.Some? && r.value.out.Valid() && r.value.out.capacity == b.value.out.capacity
    decreases es
  {
    if b.None? || |es| == 0 then b
    else WalkEntries(WalkEntry(b.value, base, rel, es[0]), base, rel, es[1..])
  }

  /** The file count and running size `process_directory` updates through its pointers. */
  class Counters {
    var fileCount: uint16
    var totalSize: uint64

    constructor (fileCount: uint16, totalSize: uint64)
      ensures this.fileCount == fileCount && this.totalSize == totalSize
    {
      this.fileCount, this.totalSize := fileCount, totalSize;
    }
  }

  function State(archive: OutFile, counters: Counters): Build
    reads archive, counters
  {
    Build(archive.Model(), counters.fileCount, counters.totalSize)
  }

  /** The compress-or-store decision of `process_single_file`. */
  method ChoosePayload(filepath: bytes, data: filedata) returns (compressed: bool, payload: filedata)
    ensures (compressed, payload) == StoredPayload(filepath, data)
  {
    var sc := ShouldCompressFile(filepath);
    var compressedSize: nat, output: array?<uint8> := 0, null;
    if sc != 0 && |data| > 100 {
      compressedSize, output := Ppm.Compress(data);
    }
    compressed := output != null && compressedSize > 0 && compressedSize < |data|;
    payload := if compressed then output[..compressedSize] else data;
  }

  /** The two `fwrite`s of an entry and the counter update after a complete write. */
  method WriteEntry(archive: OutFile, counters: Counters, header: FileHeader, payload: bytes)
    requires archive.Valid() && header.Valid() && header.fileSize == |payload|
    modifies archive, counters
    ensures archive.Valid()
    ensures State(archive, counters) == AppendEntry(old(State(archive, counters)), header, payload)
  {
    ghost var before := State(archive, counters);
    var hw := archive.Write(EncodeFileHeader(header));
    ghost var s1 := archive.Model();
    var dw := archive.Write(payload);
    assert (s1, hw) == Put(before.out, EncodeFileHeader(header));
    assert (archive.Model(), dw) == Put(s1, payload);
    if hw == FS && dw == header.fileSize {
      counters.fileCount := (counters.fileCount + 1) % 0x1_0000;
      counters.totalSize := (counters.totalSize + FS + header.fileSize) % TWO_64;
    }
  }

  /**
   * `process_single_file`: `ok` is false when the program aborts; otherwise the
   * archive and the counters are where AddFile says.
   */
  method ProcessSingleFile(filepath: bytes, rel: bytes, archive: OutFile, counters: Counters, file: Node)
    returns (ok: bool)
    requires file.Regular? && archive.Valid()
    modifies archive, counters
    ensures archive.Valid()
    ensures AddFile(old(State(archive, counters)), filepath, rel, file) == if ok then Some(State(archive, counters)) else None
  {
    if file.access == OpenFails {
      return false;
    }
    var data := file.data;
    if |data| == 0 || file.access == ReadFails {
      return true;
    }
    var compressed, payload := ChoosePayload(filepath, data);
    var header := EntryHeader(rel, file.mode, counters.totalSize, compressed, payload);
    WriteEntry(archive, counters, header, payload);
    return true;
  }

  /**
   * `process_directory` over the directory `dir` at `rel`: `ok` is false when
   * the program aborts; otherwise the archive and counters are where
   * WalkDirectory says.
   */
  method ProcessDirectory(base: bytes, rel: bytes, dir: Node, archive: OutFile, counters: Counters)
    returns (ok: bool)
    requires dir.Directory? && archive.Valid()
    modifies archive, counters
    ensures archive.Valid()
    ensures WalkDirectory(old(State(archive, counters)), base, rel, dir) == if ok then Some(State(archive, counters)) else None
    decreases dir
  {
    if !dir.openable {
      return false;
    }
    ghost var goal := WalkDirectory(State(archive, counters), base, rel, dir);
    var entries := dir.entries;
    var i: nat := 0;
    while i < |entries|
      invariant 0 <= i <= |entries| && archive.Valid()
      invariant WalkEntries(Some(State(archive, counters)), base, rel, entries[i..]) == goal
    {
      var e := entries[i];
      assert entries[i..][1..] == entries[i + 1..];
      ghost var next := WalkEntry(State(archive, counters), base, rel, e);
      if e.name != DOT_NAME && e.name != DOTDOT_NAME {
        var newRel := JoinRel(rel, e.name);
        match e.node
        case Vanished =>
        case Directory(_, _) =>
          ok := ProcessDirectory(base, newRel, e.node, archive, counters);
          if !ok {
            return false;
          }
        case Regular(_, _, _) =>
          ok := ProcessSingleFile(EntryPath(base, newRel), newRel, archive, counters, e.node);
          if !ok {
            return false;
          }
        case Special =>
          return false;
      }
      assert next == Some(State(archive, counters));
      i := i + 1;
    }
    return true;
  }
}
