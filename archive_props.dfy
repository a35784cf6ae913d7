/**
 * Properties that join the builder and the readers: the builder stamps each
 * entry with its own starting offset and chains the entries back to back after
 * the archive header, which is exactly what `verify_archive` recomputes, so a
 * freshly built archive verifies with no offset warnings.
 */
module ArchiveProps {
  import opened Bytes
  import opened Format
  import opened Stream
  import opened Utils
  import opened Archive
  import Ppm

  /**
   * From `pos` the archive holds the entries `hs` back to back, each header
   * stamped with its own position and each payload complete, the last one
   * ending at `end`.
   */
  predicate Laid(arc: bytes, pos: nat, hs: seq<FileHeader>, end: nat)
    decreases |hs|, 1
  {
    pos <= end <= |arc| && if |hs| == 0 then pos == end else Link(arc, pos, hs, end)
  }

  /** The first link of a nonempty chain: its header at `pos`, then the rest of the chain after its payload. */
  predicate Link(arc: bytes, pos: nat, hs: seq<FileHeader>, end: nat)
    requires |hs| > 0
    decreases |hs|, 0
  {
    var h := hs[0];
    h.Valid() && h.offset == pos && pos + FS + h.fileSize <= end <= |arc| &&
    arc[pos..pos + FS] == EncodeFileHeader(h) && Laid(arc, pos + FS + h.fileSize, hs[1..], end)
  }

  /** A chain of entries only depends on the bytes it covers. */
  lemma {:induction false} LaidFrame(a: bytes, b: bytes, pos: nat, hs: seq<FileHeader>, end: nat)
    requires Laid(a, pos, hs, end) && end <= |b| && a[pos..end] == b[pos..end]
    ensures Laid(b, pos, hs, end)
    decreases |hs|
  {
    if |hs| > 0 {
      assert Link(a, pos, hs, end);
      var next := pos + FS + hs[0].fileSize;
      assert a[pos..pos + FS] == a[pos..end][..FS] == b[pos..end][..FS] == b[pos..pos + FS];
      assert a[next..end] == a[pos..end][next - pos..] == b[pos..end][next - pos..] == b[next..end];
      LaidFrame(a, b, next, hs[1..], end);
      assert Link(b, pos, hs, end);
    }
  }

  /** Appending bytes after a chain keeps it. */
  lemma LaidAppend(a: bytes, extra: bytes, pos: nat, hs: seq<FileHeader>, end: nat)
    requires Laid(a, pos, hs, end)
    ensures Laid(a + extra, pos, hs, end)
  {
    assert (a + extra)[pos..end] == a[pos..end];
    LaidFrame(a, a + extra, pos, hs, end);
  }

  /** One more entry, stamped with the chain's end and followed by its whole payload, extends the chain to `last`. */
  lemma {:induction false} LaidSnoc(arc: bytes, pos: nat, hs: seq<FileHeader>, end: nat, h: FileHeader, last: nat)
    requires Laid(arc, pos, hs, end) && h.Valid() && h.offset == end && last == end + FS + h.fileSize
    requires last <= |arc| && arc[end..end + FS] == EncodeFileHeader(h)
    ensures Laid(arc, pos, hs + [h], last)
    decreases |hs|
  {
    if |hs| == 0 {
      assert [h][1..] == [];
      assert Laid(arc, last, [], last);
      assert Link(arc, pos, [h], last);
    } else {
      assert Link(arc, pos, hs, end);
      assert (hs + [h])[1..] == hs[1..] + [h];
      LaidSnoc(arc, pos + FS + hs[0].fileSize, hs[1..], end, h, last);
      assert Link(arc, pos, hs + [h], last);
    }
  }

  /** Two writes in a row at the end of a file append what fit; a short one leaves the file full. */
  lemma PutTwice(k: Sink, x: bytes, y: bytes)
    requires k.Valid() && k.pos == |k.contents|
    ensures var w1 := Put(k, x); var w2 := Put(w1.0, y);
      w2.0.contents == k.contents + x[..w1.1] + y[..w2.1] && w2.0.pos == |w2.0.contents| &&
      ((w1.1 == |x| && w2.1 == |y|) || w2.0.pos == k.capacity)
  {
  }

  /** Bytes that keep a prefix keep every slice of it. */
  lemma PrefixSlice(a: bytes, b: bytes, i: nat, j: nat)
    requires |a| <= |b| && b[..|a|] == a && i <= j <= |a|
    ensures b[i..j] == a[i..j]
  {
    forall k | 0 <= k < j - i
      ensures b[i..j][k] == a[i..j][k]
    {
      assert b[i + k] == b[..|a|][i + k];
    }
  }

  /**
   * A chain ending where the old contents `c` end grows by a header stamped
   * with that end when the new contents `s` keep `c` and hold the header there.
   */
  lemma ChainGrows(c: bytes, s: bytes, hs: seq<FileHeader>, h: FileHeader, last: nat)
    requires Laid(c, HS, hs, |c|) && h.Valid() && h.offset == |c| && last == |c| + FS + h.fileSize
    requires last <= |s| && s[..|c|] == c && s[|c|..|c| + FS] == EncodeFileHeader(h)
    ensures Laid(s, HS, hs + [h], last)
  {
    PrefixSlice(c, s, HS, |c|);
    LaidFrame(c, s, HS, hs, |c|);
    LaidSnoc(s, HS, hs, |c|, h, last);
  }

  /** The file's cursor is at its end, past the chain's end; bytes past that end only in a full file. */
  predicate Shaped(k: Sink, total: nat)
  {
    k.Valid() && k.pos == |k.contents| && HS <= total <= |k.contents| &&
    (total < |k.contents| ==> k.pos == k.capacity)
  }

  /**
   * The builder's state is a well-formed prefix: the archive header, then the
   * chain of complete entries `hs` ending at `totalSize`, their number agreeing
   * with `fileCount` modulo 2^16.  Bytes past the chain can only come from a
   * short write, which leaves the file full.
   */
  predicate Built(b: Build, hs: seq<FileHeader>)
  {
    Shaped(b.out, b.totalSize) && |hs| % 0x1_0000 == b.fileCount && Laid(b.out.contents, HS, hs, b.totalSize)
  }

  /** One more entry in the chain is one more modulo 2^16 in the count. */
  lemma CountOneMore(hs: seq<FileHeader>, h: FileHeader, c: nat)
    requires c == |hs| % 0x1_0000
    ensures |hs + [h]| % 0x1_0000 == (c + 1) % 0x1_0000
  {
    var q := |hs| / 0x1_0000;
    assert |hs| == q * 0x1_0000 + c;
    assert |hs + [h]| == q * 0x1_0000 + (c + 1);
  }

  /**
   * What the two writes of an entry leave in `r`: the old contents stay as a
   * prefix; when the header and the whole payload follow them the counters
   * advance, and otherwise the file is full and the counters stay.
   */
  predicate EntryWritten(b: Build, h: FileHeader, payload: bytes, r: Build)
    requires h.Valid()
  {
    var n := |b.out.contents|;
    r.out.Valid() && r.out.pos == |r.out.contents| && r.out.capacity == b.out.capacity &&
    n <= |r.out.contents| && r.out.contents[..n] == b.out.contents &&
    if |r.out.contents| == n + FS + |payload| then
      r.out.contents[n..n + FS] == EncodeFileHeader(h) && r.out.contents[n + FS..] == payload &&
      r.fileCount == (b.fileCount + 1) % 0x1_0000 && r.totalSize == (b.totalSize + FS + |payload|) % TWO_64
    else
      r.out.pos == r.out.capacity && r.fileCount == b.fileCount && r.totalSize == b.totalSize
  }

  /** The two writes of an entry at the end of a file. */
  lemma AppendEntryWrites(b: Build, h: FileHeader, payload: bytes)
    requires b.out.Valid() && b.out.pos == |b.out.contents| && h.Valid() && h.fileSize == |payload|
    ensures EntryWritten(b, h, payload, AppendEntry(b, h, payload))
  {
    var enc := EncodeFileHeader(h);
    PutTwice(b.out, enc, payload);
    var w1 := Put(b.out, enc);
    var w2 := Put(w1.0, payload);
    var n := |b.out.contents|;
    if w1.1 == FS && w2.1 == |payload| {
      assert enc[..w1.1] == enc && payload[..w2.1] == payload;
      assert w2.0.contents[n..n + FS] == enc;
      assert w2.0.contents[n + FS..] == payload;
    }
    assert w2.0.contents[..n] == b.out.contents;
  }

  /** Writing an entry stamped with the total size keeps the builder's state well formed. */
  lemma AppendEntryBuilt(b: Build, hs: seq<FileHeader>, h: FileHeader, payload: bytes) returns (hs': seq<FileHeader>)
    requires Built(b, hs) && h.Valid() && h.fileSize == |payload| && h.offset == b.totalSize
    ensures Built(AppendEntry(b, h, payload), hs')
  {
    AppendEntryWrites(b, h, payload);
    hs' := WrittenBuilt(b, hs, h, payload, AppendEntry(b, h, payload));
  }

  /** An entry stamped with the total size, written in full or not, leaves the builder's state well formed. */
  lemma WrittenBuilt(b: Build, hs: seq<FileHeader>, h: FileHeader, payload: bytes, r: Build) returns (hs': seq<FileHeader>)
    requires Built(b, hs) && h.Valid() && h.fileSize == |payload| && h.offset == b.totalSize
    requires EntryWritten(b, h, payload, r)
    ensures Built(r, hs')
  {
    var k := b.out;
    var t := b.totalSize;
    if |r.out.contents| == |k.contents| + FS + |payload| {
      assert t == |k.contents|;
      FullWriteBuilt(b, hs, h, payload, r);
      hs' := hs + [h];
    } else {
      PrefixSlice(k.contents, r.out.contents, HS, t);
      LaidFrame(k.contents, r.out.contents, HS, hs, t);
      hs' := hs;
    }
  }

  /** A complete entry at the end of the chain, counted and added to the total size, extends the chain. */
  lemma FullWriteBuilt(b: Build, hs: seq<FileHeader>, h: FileHeader, payload: bytes, r: Build)
    requires Built(b, hs) && b.totalSize == |b.out.contents|
    requires h.Valid() && h.fileSize == |payload| && h.offset == b.totalSize
    requires r.out.Valid() && r.out.pos == |r.out.contents| && |r.out.contents| == b.totalSize + FS + |payload|
    requires r.out.contents[..b.totalSize] == b.out.contents && r.out.contents[b.totalSize..b.totalSize + FS] == EncodeFileHeader(h)
    requires r.fileCount == (b.fileCount + 1) % 0x1_0000 && r.totalSize == (b.totalSize + FS + |payload|) % TWO_64
    ensures Built(r, hs + [h])
  {
    var last := b.totalSize + FS + |payload|;
    ModSmall(last);
    CountOneMore(hs, h, b.fileCount);
    assert r.totalSize == last;
    ChainGrows(b.out.contents, r.out.contents, hs, h, last);
  }

  /** Adding a regular file keeps the builder's state well formed. */
  lemma AddFileBuilt(b: Build, hs: seq<FileHeader>, filepath: bytes, rel: bytes, f: Node) returns (hs': seq<FileHeader>)
    requires Built(b, hs) && f.Regular?
    ensures AddFile(b, filepath, rel, f).Some? ==> Built(AddFile(b, filepath, rel, f).value, hs')
  {
    hs' := hs;
    if f.access != OpenFails && |f.data| > 0 && f.access != ReadFails {
      var (compressed, payload) := StoredPayload(filepath, f.data);
      hs' := AppendEntryBuilt(b, hs, EntryHeader(rel, f.mode, b.totalSize, compressed, payload), payload);
    }
  }

  /**
   * `process_single_file` at the end of the archive: an empty file or a short
   * read leaves everything as it was; a readable file gets its header, stamped
   * with the running total size, and its payload written, and the counters
   * advance only when both writes were complete.
   */
  lemma AddFileEffect(b: Build, filepath: bytes, rel: bytes, f: Node)
    requires b.out.Valid() && b.out.pos == |b.out.contents| && f.Regular?
    ensures f.access == ReadFails || (f.access == Readable && |f.data| == 0) ==> AddFile(b, filepath, rel, f) == Some(b)
    ensures f.access == Readable && |f.data| > 0 ==>
      && AddFile(b, filepath, rel, f).Some?
      && var stored := StoredPayload(filepath, f.data);
         EntryWritten(b, EntryHeader(rel, f.mode, b.totalSize, stored.0, stored.1), stored.1, AddFile(b, filepath, rel, f).value)
  {
    if f.access == Readable && |f.data| > 0 {
      var stored := StoredPayload(filepath, f.data);
      AppendEntryWrites(b, EntryHeader(rel, f.mode, b.totalSize, stored.0, stored.1), stored.1);
    }
  }

  /** Walking a directory keeps the builder's state well formed. */
  lemma {:induction false} WalkDirectoryBuilt(b: Build, hs: seq<FileHeader>, base: bytes, rel: bytes, dir: Node)
    returns (hs': seq<FileHeader>)
    requires Built(b, hs) && dir.Directory?
    ensures WalkDirectory(b, base, rel, dir).Some? ==> Built(WalkDirectory(b, base, rel, dir).value, hs')
    decreases dir, 1
  {
    hs' := hs;
    if dir.openable {
      hs' := WalkEntriesBuilt(Some(b), hs, base, rel, dir.entries, dir);
    }
  }

  /** Walking the remaining entries `es` of a directory keeps the builder's state well formed. */
  lemma {:induction false} WalkEntriesBuilt(b: Option<Build>, hs: seq<FileHeader>, base: bytes, rel: bytes, es: seq<DirEntry>, dir: Node)
    returns (hs': seq<FileHeader>)
    requires b.Some? ==> Built(b.value, hs)
    requires dir.Directory? && forall e :: e in es ==> e in dir.entries
    ensures WalkEntries(b, base, rel, es).Some? ==> Built(WalkEntries(b, base, rel, es).value, hs')
    decreases dir, 0, |es|
  {
    hs' := hs;
    if b.Some? && |es| > 0 {
      var e := es[0];
      assert e in dir.entries;
      var mid := hs;
      if e.name != DOT_NAME && e.name != DOTDOT_NAME {
        var newRel := JoinRel(rel, e.name);
        match e.node
        case Vanished =>
        case Special =>
        case Directory(_, _) =>
          mid := WalkDirectoryBuilt(b.value, hs, base, newRel, e.node);
        case Regular(_, _, _) =>
          mid := AddFileBuilt(b.value, hs, EntryPath(base, newRel), newRel, e.node);
      }
      hs' := WalkEntriesBuilt(WalkEntry(b.value, base, rel, e), mid, base, rel, es[1..], dir);
    }
  }

  /** The first `m` entries of a chain form a chain of their own. */
  lemma {:induction false} LaidPrefix(arc: bytes, pos: nat, hs: seq<FileHeader>, end: nat, m: nat) returns (mid: nat)
    requires Laid(arc, pos, hs, end) && m <= |hs|
    ensures Laid(arc, pos, hs[..m], mid)
    decreases m
  {
    if m == 0 {
      mid := pos;
    } else {
      assert Link(arc, pos, hs, end);
      mid := LaidPrefix(arc, pos + FS + hs[0].fileSize, hs[1..], end, m - 1);
      assert hs[..m][1..] == hs[1..][..m - 1];
      assert Link(arc, pos, hs[..m], mid);
    }
  }

  /** After an entry stamped with the expected offset the loop expects exactly where the payload ends. */
  lemma AdvanceMatch(p: Progress, i: nat, h: FileHeader, next: nat)
    requires h.offset == p.expected == p.pos && next == p.pos + FS + h.fileSize <= LONG_MAX
    ensures Advance(p, i, h, next) == Progress(next, next, p.valid + 1, p.mismatches)
  {
    ModSmall(next);
  }

  /** One verification step over an entry stamped with the expected offset. */
  lemma VerifyMatch(arc: bytes, i: nat, count: nat, p: Progress, h: FileHeader)
    requires i < count && |arc| <= LONG_MAX && p.pos <= LONG_MAX && p.pos + FS + h.fileSize <= |arc|
    requires EntryAt(arc, p.pos) == Some(h) && h.offset == p.pos && p.expected == p.pos
    ensures var next := p.pos + FS + h.fileSize;
      VerifyLoop(arc, i, count, p) == VerifyLoop(arc, i + 1, count, Progress(next, next, p.valid + 1, p.mismatches))
  {
    var next := p.pos + FS + h.fileSize;
    SeekForward(p.pos + FS, h.fileSize);
    AdvanceMatch(p, i, h, next);
    VerifyStep(arc, i, count, p, h);
  }

  /** The first link of a nonempty chain: the rest of the chain starts after its payload. */
  lemma LaidTail(arc: bytes, pos: nat, hs: seq<FileHeader>, end: nat)
    requires |hs| > 0 && Laid(arc, pos, hs, end)
    ensures hs[0].offset == pos && pos + FS + hs[0].fileSize <= end && Laid(arc, pos + FS + hs[0].fileSize, hs[1..], end)
  {
    assert Link(arc, pos, hs, end);
  }

  /** The reader decodes the first header of a nonempty chain where the chain starts. */
  lemma LaidHead(arc: bytes, pos: nat, hs: seq<FileHeader>, end: nat)
    requires |hs| > 0 && Laid(arc, pos, hs, end)
    ensures EntryAt(arc, pos) == Some(hs[0])
  {
    assert Link(arc, pos, hs, end);
    FileHeaderRoundTrip(hs[0]);
  }

  /** The verification step over the first link of a chain that starts at the cursor. */
  lemma VerifyLink(arc: bytes, i: nat, count: nat, p: Progress, hs: seq<FileHeader>, end: nat)
    requires i < count && |hs| > 0 && |arc| <= LONG_MAX && p.pos <= LONG_MAX
    requires Laid(arc, p.pos, hs, end) && p.expected == p.pos
    ensures p.pos + FS + hs[0].fileSize <= end
    ensures var next := p.pos + FS + hs[0].fileSize;
      VerifyLoop(arc, i, count, p) == VerifyLoop(arc, i + 1, count, Progress(next, next, p.valid + 1, p.mismatches))
  {
    LaidTail(arc, p.pos, hs, end);
    LaidHead(arc, p.pos, hs, end);
    VerifyMatch(arc, i, count, p, hs[0]);
  }

  /**
   * Over a chain of entries stamped with their own positions, the verification
   * loop skips every payload and raises no warnings.
   */
  lemma {:induction false} VerifyLaid(arc: bytes, i: nat, count: nat, p: Progress, hs: seq<FileHeader>, end: nat, valid: nat)
    requires i <= count && |hs| == count - i && |arc| <= LONG_MAX && p.pos <= LONG_MAX
    requires Laid(arc, p.pos, hs, end) && p.expected == p.pos && valid == p.valid + |hs|
    ensures VerifyLoop(arc, i, count, p) == Ok(Progress(end, end, valid, p.mismatches))
    decreases count - i
  {
    if i < count {
      LaidTail(arc, p.pos, hs, end);
      var next := p.pos + FS + hs[0].fileSize;
      VerifyLink(arc, i, count, p, hs, end);
      VerifyLaid(arc, i + 1, count, Progress(next, next, p.valid + 1, p.mismatches), hs[1..], end, valid);
    } else {
      assert p == Progress(end, end, valid, p.mismatches);
    }
  }

  /** What the first write leaves: the archive header alone, with no entries. */
  lemma FirstHeaderBuilt(password: bool, capacity: nat)
    requires capacity <= LONG_MAX
    ensures var first := Put(Sink([], 0, capacity), EncodeArchiveHeader(InitialHeader(password)));
      first.1 == HS ==> Built(Build(first.0, 0, HS), [])
  {
  }

  /** Rewriting the archive header in place keeps the chain after it. */
  lemma HeaderRewriteKeepsChain(k: Sink, enc: bytes, hs: seq<FileHeader>, end: nat)
    requires k.Valid() && |enc| == HS && Laid(k.contents, HS, hs, end)
    ensures var w := Put(k.(pos := 0), enc);
      w.1 == HS ==> |w.0.contents| == |k.contents| && w.0.contents[..HS] == enc && Laid(w.0.contents, HS, hs, end)
  {
    var w := Put(k.(pos := 0), enc);
    if w.1 == HS {
      assert enc[..w.1] == enc;
      assert w.0.contents[HS..end] == k.contents[HS..end];
      LaidFrame(k.contents, w.0.contents, HS, hs, end);
    }
  }

  /** An archive that starts with the encoding of a valid header carrying the magic passes the header checks. */
  lemma HeaderAccepted(arc: bytes, header: ArchiveHeader)
    requires header.Valid() && header.magic == MAGIC && |arc| >= HS && arc[..HS] == EncodeArchiveHeader(header)
    ensures CheckHeader(arc, false, false) == HeaderOk(header)
  {
    ArchiveHeaderRoundTrip(header);
    assert arc[..8] == arc[..HS][..8];
    CheckHeaderMeaning(arc, false, false);
  }

  /** The verification loop over the first `count` entries of a chain after the archive header. */
  lemma ChainVerifies(arc: bytes, hs: seq<FileHeader>, end: nat, count: nat)
    requires |arc| <= LONG_MAX && Laid(arc, HS, hs, end) && count == |hs| % 0x1_0000
    ensures var r := VerifyLoop(arc, 0, count, Progress(HS, HS, 0, []));
      r.Ok? && r.value.valid == count && r.value.mismatches == []
  {
    var mid := LaidPrefix(arc, HS, hs, end, count);
    VerifyLaid(arc, 0, count, Progress(HS, HS, 0, []), hs[..count], mid, count);
  }

  /** The header rewrite after a walk that left the builder well formed yields an archive that verifies. */
  lemma FinishedVerifies(b: Build, hs: seq<FileHeader>, password: bool)
    requires Built(b, hs)
    ensures var last := Put(b.out.(pos := 0), EncodeArchiveHeader(FinalHeader(password, b)));
      last.1 == HS ==> VerifySpec(last.0.contents) == Verified(b.fileCount, [])
  {
    var header := FinalHeader(password, b);
    var last := Put(b.out.(pos := 0), EncodeArchiveHeader(header));
    if last.1 == HS {
      var arc := last.0.contents;
      HeaderRewriteKeepsChain(b.out, EncodeArchiveHeader(header), hs, b.totalSize);
      HeaderAccepted(arc, header);
      ChainVerifies(arc, hs, b.totalSize, b.fileCount);
    }
  }

  /**
   * The extractor gives back what the builder stored: restoring the payload
   * chosen for a file, under the header written for it, yields the file's bytes
   * whenever the run-length format can represent them.
   */
  lemma RestoresStoredFile(filepath: bytes, data: filedata, rel: bytes, mode: uint32, offset: uint64)
    requires |data| < 0x8000_0000 && Ppm.Unambiguous(data)
    ensures var stored := StoredPayload(filepath, data);
      Restored(EntryHeader(rel, mode, offset, stored.0, stored.1), stored.1) == data
  {
    var stored := StoredPayload(filepath, data);
    if stored.0 {
      Ppm.RoundTrip(data);
    }
  }

  /**
   * The header of a freshly created archive: the magic, a nonzero file count,
   * the password flag as given, and a total size that lies within the file.
   */
  lemma CreatedHeader(root: Node, dirPath: bytes, password: bool, opens: bool, capacity: nat)
    requires capacity <= LONG_MAX
    requires CreateSpec(root, dirPath, password, opens, capacity).Created?
    ensures var arc := CreateSpec(root, dirPath, password, opens, capacity).contents;
      |arc| >= HS && var h := DecodeArchiveHeader(arc[..HS]);
      h.magic == MAGIC && h.fileCount > 0 && h.hasPassword <= 1 && (h.hasPassword == 1 <==> password) &&
      HS <= h.totalSize <= |arc|
  {
    FirstHeaderBuilt(password, capacity);
    var first := Put(Sink([], 0, capacity), EncodeArchiveHeader(InitialHeader(password)));
    var hs := WalkDirectoryBuilt(Build(first.0, 0, HS), [], dirPath, [], root);
    var b := WalkDirectory(Build(first.0, 0, HS), dirPath, [], root).value;
    var header := FinalHeader(password, b);
    var last := Put(b.out.(pos := 0), EncodeArchiveHeader(header));
    assert last.0.contents[..HS] == EncodeArchiveHeader(header);
    ArchiveHeaderRoundTrip(header);
  }

  /**
   * A freshly created archive verifies: every one of the `file_count` entries
   * its header announces has its payload skipped, and no entry's offset field
   * differs from the recomputed offset.
   */
  lemma CreatedArchiveVerifies(root: Node, dirPath: bytes, password: bool, opens: bool, capacity: nat)
    requires capacity <= LONG_MAX
    requires CreateSpec(root, dirPath, password, opens, capacity).Created?
    ensures var arc := CreateSpec(root, dirPath, password, opens, capacity).contents;
      |arc| <= LONG_MAX && VerifySpec(arc) == Verified(DecodeArchiveHeader(arc[..HS]).fileCount, [])
  {
    FirstHeaderBuilt(password, capacity);
    var first := Put(Sink([], 0, capacity), EncodeArchiveHeader(InitialHeader(password)));
    var hs := WalkDirectoryBuilt(Build(first.0, 0, HS), [], dirPath, [], root);
    var b := WalkDirectory(Build(first.0, 0, HS), dirPath, [], root).value;
    FinishedVerifies(b, hs, password);
    var header := FinalHeader(password, b);
    var arc := Put(b.out.(pos := 0), EncodeArchiveHeader(header)).0.contents;
    ArchiveHeaderRoundTrip(header);
  }
}
