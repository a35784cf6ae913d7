# LinZOV archiver core in Dafny

LinZOV is a small C file archiver. It packs a directory tree into one archive file and can later extract, list or verify that archive. Each file may be compressed with a byte run-length coder, which the sources call "PPM". The repository also holds a lowercase trie. This project models four pieces of that code and proves properties about them:

- **Run-length codec** (`ppm_compress` / `ppm_decompress`, module `Ppm`, file `ppm.dfy`):
  - Both directions fill a heap buffer through a moving index. They are modelled as methods over arrays, each proved against a specification function.
  - A round-trip lemma holds for the inputs the format can represent.
  - Two lemmas show a concrete input for which the format is ambiguous.
- **Archive builder bookkeeping** (`process_directory`, `process_single_file`, `should_compress_file`, `create_directory`, `create_parent_dirs`; module `Utils`, file `utils.dfy`):
  - The walk runs over a given directory tree.
  - The counters that `create_archive` passes by pointer are a `Counters` object.
  - The archive file is an `OutFile` object (module `Stream`, file `stream.dfy`).
- **Archive readers and writer** (`create_archive`, `extract_archive`, `list_archive_contents`, `verify_archive`, `is_archive_file`; module `Archive`, file `archive.dfy`):
  - An archive is the byte string of its file.
  - Every reader's loop is a method whose result is tied to a specification function in accumulator form.
- **Lowercase trie** (`createNewNode`, `insert`, `search`, `printTrie`; module `Trie`, file `trie.dfy`):
  - Heap nodes with 26-slot child arrays form a `Node` class.
  - Each node carries the abstract `Tree` it stands for.
  - Lemmas on `Tree` cover insert-then-search, idempotence, "nothing else changes", and the order in which `printTrie` prints.

Module `Format` (`format.dfy`) holds the two on-disk records. Module `Bytes` (`bytes.dfy`) holds machine integers, C strings and little-endian codecs.

Module `ArchiveProps` (`archive_props.dfy`) connects builder and reader:
- The builder stamps every entry with the running total size and writes entries back to back. So an archive made by `create_archive` passes `verify_archive` with all of its entries counted and no offset warning (`ArchiveProps.CreatedArchiveVerifies`).
- Restoring the payload the builder chose, under the header the builder wrote, gives back the file's bytes whenever the run-length format can represent them (`ArchiveProps.RestoresStoredFile`). This is a statement about one entry's payload, not about a whole extraction run: the extractor can still skip or abort on an entry (see "## Left out").

Modelling choices:
- **Records.** Both headers have a packed little-endian layout of `HS` = 19 and `FS` = 278 bytes, with a 256-byte filename field. Round trips are proved both ways.
- **Aborts.** `printErr` ends the process. An operation that reaches it returns an error value (`None`, `CreateAborted`, `ExtractAborted`, ...). `printErrNE` only prints, so at those points the model carries on exactly as the C code does.
- **Files being written** have a capacity. An `fwrite` writes what still fits and reports that count, so the short-write branches are reachable and modelled.
- **Integers.** `uint16_t` `file_count` and `uint64_t` sizes wrap explicitly. `fseek` by a `uint64_t` size converts it to `long`.

What the code does at its edge cases, as the model has it:
- **Unopenable directory.** It aborts the whole build (`src/utils.c:13-14`); it is not skipped with a warning.
- **Path names.** They are silently truncated into the filename field (`src/utils.c:92`), not rejected.
- **Entry count.** It wraps modulo 2^16 (`src/utils.c:130`); more than 65535 files are not rejected.
- **Empty build.** A walk that archives no file aborts with "No files found" (`src/archive.c:31-32`), after the first header is written.
- **Verify aborts.** `verify_archive` aborts when skipping a payload fails (`src/archive.c:317-318`) and when the number of valid entries differs from `file_count` (`src/archive.c:330-333`). An offset mismatch is only reported.
- **Extract count.** `extract_archive` aborts on fewer extracted entries than `file_count` only when `vflag == 1` (`src/archive.c:195-197`); otherwise it returns -1 (`src/archive.c:202`).
- **Parent directories.** `create_parent_dirs` makes only the single directory before the last slash, and a failing `mkdir` in it aborts the program (`src/utils.c:145-146`, `src/utils.c:151-162`). An entry two or more directories deep whose intermediate directory does not exist yet therefore aborts the extraction (`Utils.NestedParentAborts`).
- **Ambiguous run format.** It is not special-cased. `Ppm.AmbiguousPairCompresses` and `Ppm.AmbiguousPairDecodes` exhibit the input `1 1 2 2 2 2 2 2 2 2`, whose compressed form decodes to 4 bytes.

## Model

| member | source | states |
|---|---|---|
| Format.ArchiveHeaderRoundTrip | src/archive.h:24-29 | decoding the HS bytes written for a valid archive header gives that header back |
| Format.ArchiveHeaderBytesRoundTrip | src/archive.h:24-29 | any HS bytes are the encoding of the header they decode to, so the layout loses nothing |
| Format.FileHeaderRoundTrip | src/utils.c:91-95 | decoding the FS bytes written for a valid file header (filename, size, permissions, offset, compressed flag, algorithm) gives that header back |
| Format.FileHeaderBytesRoundTrip | src/archive.c:101-104 | any FS bytes are the encoding of the file header they decode to |
| Format.FilenameFieldName | src/utils.c:91-92 | the name a reader sees in the stored filename field is the relative path cut to NAME_LEN - 1 bytes (silent truncation, NUL padded) |
| Stream.Put | src/utils.c:123-124 | one `fwrite` writes the part of the buffer that fits below the capacity at the cursor, returns that count, and at the end of the file appends exactly that part |
| Stream.OutFile.Open | src/archive.c:10-12 | `fopen(..., "wb")` gives an empty file with the cursor at 0 |
| Stream.OutFile.Write | src/utils.c:123-124 | the file's new contents, cursor and returned count are those of `Put` |
| Stream.OutFile.Rewind | src/archive.c:35 | `fseek(archive, 0, SEEK_SET)` moves the cursor to 0 and keeps the contents |
| Ppm.RunLengthIsMaximalRun | src/ppm.c:30-37 | the run counted at the front is made of equal bytes and is maximal: unless it hit 255 or the end, the next byte differs |
| Ppm.RunSplit | src/ppm.c:30-44 | the input is its first run of `count` equal bytes followed by the rest, so stepping `i` by `count` loses nothing |
| Ppm.CountRun | src/ppm.c:31-37 | the counting loop returns the capped maximal run length at `input[i]` |
| Ppm.CopyLiterals | src/ppm.c:45-50 | the literal loop appends exactly `input[i..i+count]` to the buffer and advances both indices by `count` |
| Ppm.EmitRun | src/ppm.c:39-50 | a run of more than 3 bytes is written as `[b, b, count]`, a shorter one byte for byte; the write index grows by at most `count` |
| Ppm.EncodeRepeat | src/ppm.c:39-44 | a run of 4 to 255 equal bytes is encoded as exactly `[b, b, n]` |
| Ppm.Compress | src/ppm.c:7-63 | NULL and 0 exactly when the input is empty or the encoding is not shorter; otherwise a buffer of `input_size + 8` bytes whose first `size` bytes are the encoding, with `0 < size < input_size` |
| Ppm.CompressionShape | src/ppm.c:14-62 | the encoding is at most `input_size + 4` bytes (writes stay inside the allocation); a result exists exactly when it is strictly shorter than the input; it is the 4-byte big-endian length followed by a nonempty run encoding |
| Ppm.SizePrefixValue | src/ppm.c:21-24 | for lengths below 2^31 the decoder recovers the length from the 4 prefix bytes |
| Ppm.HighSizeRejected | src/ppm.c:72-84 | a first length byte of 128 or more (sign-extended by the `int` shift) makes decompression return 0 / NULL |
| Ppm.FillRun | src/ppm.c:96-98 | the run loop writes `value` `min(count, room)` times and stops at the end of the buffer |
| Ppm.DecodeToken | src/ppm.c:89-103 | one pass of the decode loop consumes one token and keeps "written so far + decoding of the rest" invariant |
| Ppm.Decompress | src/ppm.c:65-108 | NULL and 0 for fewer than 4 bytes or a declared length of 0 (or one no allocation can meet); otherwise a buffer of the declared length whose first `size` bytes are the decoding, with `size` at most that length |
| Ppm.DecodeRunMarker | src/ppm.c:90-99 | two equal bytes with a third one available decode as a run of the third byte's count |
| Ppm.DecodeLiteral | src/ppm.c:100-103 | a byte not followed by an equal one decodes as a single literal |
| Ppm.DecodeEncodeRuns | src/ppm.c:30-104 | on an unambiguous input, decoding the run encoding with enough room gives the input back |
| Ppm.RoundTrip | src/ppm.c:7-108 | if `ppm_compress` succeeds on an unambiguous input shorter than 2^31 bytes, `ppm_decompress` of its output is exactly that input |
| Ppm.DistinctNeighboursUnambiguous | src/ppm.c:35-49 | an input with no two equal neighbours satisfies the round trip's precondition |
| Ppm.AmbiguousPairCompresses | src/ppm.c:39-50 | a pair of equal bytes followed by eight copies of another byte compresses to 9 bytes: the pair is copied as literals next to the run marker |
| Ppm.AmbiguousPairDecodes | src/ppm.c:89-103 | that 9-byte result decodes to 4 bytes, not the 10 of the input: the round trip fails without its precondition |
| Utils.MatchesAmongMeaning | src/utils.c:187-189 | after `i` rounds the scan has found a match exactly when one of the first `i` blacklist entries equals the extension ignoring case |
| Utils.CompressibleMeaning | src/utils.c:174-191 | a name is compressible exactly when it does not end, ignoring case, with one of the 24 listed extensions |
| Utils.ShouldCompressFile | src/utils.c:174-191 | returns 1 or 0; 1 for a name without a dot; 0 exactly when the suffix from the last dot matches a listed extension ignoring case |
| Utils.JoinRelSplit | src/utils.c:22-27 | below the root a child's relative path is `rel/name`: its last slash separates `rel` from `name` |
| Utils.JoinRelAtRoot | src/utils.c:24-25 | at the root a child's relative path is the bare name |
| Utils.CreateDirectory | src/utils.c:142-148 | an existing path, directory or regular file, leaves the disk exactly as it is; a missing path `mkdir` cannot make aborts; otherwise exactly that directory is added and the files are unchanged |
| Utils.ParentDirMeaning | src/utils.c:151-162 | there is a parent exactly when the cut path has a slash, and it is everything before the last slash |
| Utils.CopyPath | src/utils.c:152-154 | `strncpy` into the PATH_MAX buffer leaves the C string cut to PATH_MAX - 1 bytes followed by NUL padding |
| Utils.ParentPath | src/utils.c:151-158 | cutting the buffer at its last slash yields the parent directory, and no slash yields none |
| Utils.CreateParentDirs | src/utils.c:151-162 | only the single directory before the last slash is created; with no slash nothing is created |
| Utils.NestedParentAborts | src/utils.c:142-162 | for a path `o/a/b/f` under an existing `o` only `o/a/b` is tried, and since `o/a` is missing the call aborts |
| Utils.StoredPayload | src/utils.c:97-120 | compressed data is stored exactly when the name is compressible, the file is over 100 bytes and compression succeeded; the stored compressed payload is nonempty and strictly smaller than the file; otherwise the original bytes are stored |
| Utils.ChoosePayload | src/utils.c:97-120 | the compress-or-store code (blacklist check, size threshold, `ppm_compress`, the size comparison) picks exactly the payload of `StoredPayload` |
| Utils.EntryHeader | src/utils.c:90-113 | the entry header has the payload's size, the file mode, the running total as offset, algorithm 1, the compressed flag 1 exactly for a compressed payload, and the relative path cut to NAME_LEN - 1 bytes as its name |
| Utils.AddFile | src/utils.c:56-139 | processing a file aborts exactly when `fopen` fails; otherwise the archive file stays a valid file of the same capacity |
| Utils.WriteEntry | src/utils.c:122-132 | the archive and counters after the two writes are those of `AppendEntry` |
| Utils.ProcessSingleFile | src/utils.c:56-139 | the archive and counters end where `AddFile` says, and the call aborts exactly when `AddFile` does |
| Utils.ProcessDirectory | src/utils.c:4-53 | the recursive walk (skipping `.` and `..`, ignoring vanished entries, aborting on unopenable directories and special files) ends where `WalkDirectory` says, and it aborts exactly when that does |
| Archive.InitialHeader | src/archive.c:15-19 | the first header has the magic `ARCHv1.0`, 0 files, total size HS, and a password flag of 1 exactly when a password was given |
| Archive.FinalHeader | src/archive.c:34-39 | the rewritten header keeps the magic and the password flag and carries the walk's count and total size |
| Archive.CreateArchive | src/archive.c:4-51 | `create_archive` produces the archive, or the abort, that `CreateSpec` describes |
| Archive.CheckHeaderMeaning | src/archive.c:64-88 | a reader rejects a file shorter than HS, then a wrong magic, then (extraction only) a set password flag without a password; each rejection happens exactly on its condition, and otherwise the header is the decoded first HS bytes |
| Archive.SeekCur | src/archive.c:317-320 | a successful relative seek lands at the cursor plus the size read as a `long`, never beyond LONG_MAX; a failed one leaves the cursor where it was |
| Archive.WriteOutSpec | src/archive.c:131-188 | an opened output file is emptied; it is filled with the restored payload, given `permissions`, and counted exactly when the whole payload can be read |
| Archive.ExtractEntry | src/archive.c:109-191 | an entry counts as extracted only if its size is between 1 and 100 MiB; zero-size and oversized entries are skipped (oversized ones by a seek); the count grows by at most one |
| Archive.ExtractLoop | src/archive.c:102-108 | the loop reads at most `file_count` headers, stops at the first short header read, and extracts at most one file per header |
| Archive.ExtractSpec | src/archive.c:195-202 | `extract_archive` returns 0 exactly when the extracted count equals the header's `file_count`, and -1 otherwise |
| Archive.RestoreData | src/archive.c:154-174 | a payload is decompressed when flagged and the result is nonempty; otherwise the raw payload is written |
| Archive.WriteOut | src/archive.c:131-190 | the write-out code has the effect `WriteOutSpec` describes |
| Archive.ExtractOne | src/archive.c:109-190 | one pass of the extraction loop has the effect `ExtractEntry` describes |
| Archive.ExtractEntries | src/archive.c:99-191 | the extraction loop ends where `ExtractLoop` says |
| Archive.ExtractArchive | src/archive.c:54-203 | `extract_archive` has the result `ExtractSpec` describes |
| Archive.ListRowsBounds | src/archive.c:237-257 | the listing loop prints at most one row per remaining entry and keeps the rows printed before |
| Archive.TotalIsSum | src/archive.c:249 | the 64-bit TOTAL counter is the sum of the listed sizes modulo 2^64 |
| Archive.ListEntries | src/archive.c:237-257 | the listing loop produces the rows of `ListRows` and the TOTAL of those rows |
| Archive.ListArchive | src/archive.c:206-263 | `list_archive_contents` prints at most `file_count` rows, and TOTAL is the sum of their sizes modulo 2^64 |
| Archive.VerifyArchive | src/archive.c:274-335 | `verify_archive` has the result `VerifySpec` describes: the offset recomputation, mismatches only recorded, a failed skip and a short count abort |
| Archive.IsArchiveFile | src/archive.c:266-267 | NULL is never an archive name |
| Archive.IsArchiveFileMeaning | src/archive.c:266-271 | a name is an archive name exactly when it is not NULL and ends in `.zov` or `.fem` |
| ArchiveProps.LaidSnoc | src/utils.c:123-131 | an entry stamped with the chain's end and followed by its whole payload extends the chain of entries |
| ArchiveProps.LaidFrame | src/archive.c:304-322 | a chain of entries depends only on the bytes it covers |
| ArchiveProps.AppendEntryWrites | src/utils.c:122-132 | the two writes keep the old contents as a prefix; after a complete write the header and payload follow them and the count and total advance (both wrapping); otherwise the file is full and the counters stay |
| ArchiveProps.AddFileEffect | src/utils.c:64-132 | an empty file or a short read leaves the state unchanged; a readable file gets its header, stamped with the running total, and its payload written, and the counters advance only on a complete write |
| ArchiveProps.AppendEntryBuilt | src/utils.c:91-131 | writing an entry stamped with the running total keeps the builder's invariant: the header, then a gapless chain of self-stamped entries ending at `total_size`, counted modulo 2^16 |
| ArchiveProps.AddFileBuilt | src/utils.c:56-139 | processing a file keeps the builder's invariant |
| ArchiveProps.WalkDirectoryBuilt | src/utils.c:4-53 | walking a directory keeps the builder's invariant |
| ArchiveProps.WalkEntriesBuilt | src/utils.c:17-50 | walking the remaining directory entries keeps the builder's invariant |
| ArchiveProps.FirstHeaderBuilt | src/archive.c:14-24 | after the first header write the archive satisfies the builder's invariant with no entries |
| ArchiveProps.HeaderRewriteKeepsChain | src/archive.c:34-39 | rewriting the header at offset 0 places the new header and keeps every entry after it |
| ArchiveProps.HeaderAccepted | src/archive.c:286-295 | an archive that starts with a valid header carrying the magic passes the reader's header checks with that header |
| ArchiveProps.VerifyLaid | src/archive.c:300-326 | over a chain of entries stamped with their own positions, the verification loop skips every payload, counts every entry and records no mismatch |
| ArchiveProps.ChainVerifies | src/archive.c:300-326 | verifying the first `file_count` entries of the builder's chain succeeds with `valid_files == file_count` and no mismatch |
| ArchiveProps.FinishedVerifies | src/archive.c:34-39 | once the walk kept the invariant, a complete header rewrite leaves an archive that verifies with no mismatch |
| ArchiveProps.CreatedHeader | src/archive.c:14-39 | a freshly created archive starts with the magic, a nonzero file count, the password flag as given, and a total size within the file |
| ArchiveProps.CreatedArchiveVerifies | src/archive.c:300-333 | a freshly created archive passes `verify_archive`: all `file_count` entries are valid and no offset mismatch is reported |
| ArchiveProps.RestoresStoredFile | src/archive.c:154-174 | restoring the payload the builder chose, under the header it wrote, gives the file's bytes whenever the run-length format can represent them |
| Trie.Empty | src/trie.c:17-26 | a new node is not a leaf and all 26 children are NULL |
| Trie.Node.constructor | src/trie.c:17-26 | `createNewNode` yields a fresh node standing for the empty tree |
| Trie.FindEmpty | src/trie.c:44-59 | in a fresh node only the empty word is found, and nothing is stored |
| Trie.InsertFinds | src/trie.c:28-42 | after `insert(w)`, search succeeds on exactly what it succeeded on before plus the prefixes of `w` |
| Trie.InsertContains | src/trie.c:28-42 | after `insert(w)` the stored words are exactly the old ones and `w`: no other leaf mark changes |
| Trie.InsertThenSearch | src/trie.c:28-59 | after `insert(w)`, `search(w)` succeeds and the node it returns is a leaf |
| Trie.InsertIdempotent | src/trie.c:28-42 | inserting a word twice is the same as inserting it once |
| Trie.Node.ChildAt | src/trie.c:38-39 | a child is created only in a NULL slot; an existing child and its subtree are kept |
| Trie.Node.Insert | src/trie.c:28-42 | the process exits exactly when a byte lies past 'z'; otherwise the node stands for the tree with `w` inserted |
| Trie.Node.Search | src/trie.c:44-59 | returns 0 exactly when every step finds a child, and then the node reached; -1 otherwise |
| Trie.FoundIsWord | src/trie.c:52-58 | any word search succeeds on is made of letters 'a' to 'z' |
| Trie.ListingMembers | src/trie.c:61-76 | the lines printed below prefix `p` are exactly `p` followed by a stored word |
| Trie.ListingIsContents | src/trie.c:61-76 | printing from the root prints exactly the stored words |
| Trie.ListingSorted | src/trie.c:61-76 | the pre-order, slot-order walk prints the words in strictly increasing byte order, so each word once |
| Trie.PrintedInFull | src/trie.c:61-65 | with a NUL-free prefix every `printf("%.*s")` line is the full word |
| Trie.Node.PrintTrie | src/trie.c:61-76 | `printTrie` keeps the caller's prefix in the buffer and prints the lines of the tree's listing, in order |

## Left out

- The command-line programs (`src/main.c`, `src/zov.c`, `src/cli.c`) are not part of this model: they parse arguments, print help, and compute a floating-point ratio.
- `src/lib.c` is modelled only through its effect: `printErr` ends the operation and `printErrNE` continues. All printed text (progress messages, the listing's column layout, the verifier's check marks) is left out. The listing is modelled as its rows and TOTAL.
- Real file-system calls are left out: `stat`, `opendir`/`readdir`, `fopen`/`fread`/`fseek`. The directory walk runs over a given tree (`Utils.Node`). Each regular file carries its bytes, its `st_mode`, and whether opening or reading it fails. The extractor writes to an abstract `Disk`.
- `add_timestamp_to_file` is left out because it depends on the wall clock.
- The native struct layout is not modelled: padding, native endianness, and the real `sizeof` values. `FileHeader` is not declared in any available file. Both records are modelled as packed little-endian records of HS = 19 and FS = 278 bytes, with an assumed 256-byte filename field.
- Password handling: there is none beyond the header flag. `src/ppm.h` declares a PPM model that is never implemented.
- The prototype mismatches between the headers and definitions are C build issues and are not modelled: the missing `vflag` parameters, and `process_directory` called with an extra argument.
- Ppm.Compress: a failing `malloc` (return 0, NULL) is not modelled, because allocation always succeeds in the model.
- Ppm.Decompress: a failing `malloc` is modelled only when the declared length exceeds PTRDIFF_MAX.
- Utils.AddFile: a failing `malloc` of the file buffer (an abort) is not modelled. Neither is a negative `getFileSize` result. The file's size is the length of its bytes, so "size 0 or less" is the empty file.
- Archive.ExtractEntry: a failing `calloc` of the payload buffer is not modelled.
- ArchiveProps.CreatedArchiveVerifies: holds under the model's write semantics only.
  - A short `fwrite` is permanent: the file is full, and every later write writes nothing.
  - The source still runs the data write after a short header write (`src/utils.c:123-124`) and leaves the counters unchanged (`src/utils.c:126-131`). So a one-off failure that later clears would leave orphan bytes. Every later entry's stamped offset would then fail the offset check.
  - stdio buffering, with errors that surface at a later flush, is not modelled. Neither is the unchecked `fclose` at `src/archive.c:41`.
- Archive.ExtractSpec: no lemma states that extracting a created archive restores the whole tree, because the code does not do that in every case. Entries of size 0 and entries over 100 MiB are skipped (`src/archive.c:109-118`). The output path is cut to 1023 bytes (`src/archive.c:122-123`). A file whose parent directory and grandparent directory are both still missing aborts the run (`Utils.NestedParentAborts`). The model states each of these cases. The round trip is proved for a single entry's payload only (`ArchiveProps.RestoresStoredFile`).
- Archive.WriteOutSpec: writes to extracted files always complete, so the short-write abort at `src/archive.c:161-162` is not modelled. Neither is an `fclose` failure. `chmod` always succeeds and sets the low 12 permission bits.
- Utils.CreateDirectory: `mkdir` succeeds exactly for a nonempty path that does not exist and whose parent directory exists. The mode 0755 is not recorded. Paths are compared as raw byte strings and are not resolved, so trailing or doubled slashes and `.`/`..` components do not name the directory the kernel would use. For example, the model aborts on `mkdir("out/")` under a missing `out`, where the kernel creates `out`. The same holds for `Archive.OutputPath` and `Archive.CanOpenForWrite`: an empty stored filename gives `out/`, which `fopen` rejects as a directory but the model opens.
- Trie.Node.Insert: requires every byte to be at least 'a' and below 128. A smaller byte, or one that is negative as a signed `char`, gives a negative child index, which is undefined behaviour in the C code.
- Trie.Node.Search: requires the same condition, for the same reason.
- Trie.Node.PrintTrie: the lines `printf` prints are returned as a sequence, not written to standard output.
- Trie.Node.PrintTrie: requires the caller's buffer to hold the prefix plus the deepest stored word. The C code writes `str[level]` without a bound check (`src/trie.c:61-76`), so a shorter buffer is undefined behaviour.
- Ppm.RoundTrip: proved only for unambiguous inputs shorter than 2^31 bytes, because the source's format cannot recover other inputs (see `Ppm.AmbiguousPairDecodes`). Above 2^31 the 32-bit length prefix is sign-extended by the decoder.
