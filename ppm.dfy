/**
 * The byte run-length codec of src/ppm.c (named PPM, but a plain run-length coder).
 *
 * A compressed buffer is a 4-byte big-endian copy of the original length followed by
 * the encoded runs: a run of more than 3 equal bytes (at most 255 at a time) becomes
 * `[b, b, count]`, anything shorter is copied byte for byte. The decoder reads two equal
 * bytes followed by a third as a run marker, so the format is ambiguous: the round trip
 * holds only for inputs whose runs never produce two equal adjacent literals.
 */
module Ppm {
  import opened Bytes

  const MAX_RUN: nat := 255

  // ---------------------------------------------------------------- encoder

  /** The inner counting loop of ppm_compress, started with `count` bytes already counted. */
  function RunFrom(s: seq<uint8>, count: nat): (k: nat)
    requires 1 <= count <= |s| && count <= MAX_RUN
    ensures count <= k <= |s| && k <= MAX_RUN
    decreases |s| - count
  {
    if count < |s| && s[count] == s[0] && count < MAX_RUN then RunFrom(s, count + 1) else count
  }

  /** The length of the run the encoder takes from the front of `s`. */
  function RunLength(s: seq<uint8>): (k: nat)
    requires |s| > 0
    ensures 1 <= k <= |s| && k <= MAX_RUN
  {
    RunFrom(s, 1)
  }

  lemma {:induction false} RunFromIsRun(s: seq<uint8>, count: nat)
    requires 1 <= count <= |s| && count <= MAX_RUN
    requires forall j :: 0 <= j < count ==> s[j] == s[0]
    ensures var k := RunFrom(s, count);
      (forall j :: 0 <= j < k ==> s[j] == s[0]) && (k < |s| && k < MAX_RUN ==> s[k] != s[0])
    decreases |s| - count
  {
    if count < |s| && s[count] == s[0] && count < MAX_RUN {
      RunFromIsRun(s, count + 1);
    }
  }

  /** The run the encoder takes is maximal, capped at 255: all its bytes equal the first,
      and unless the cap or the end stopped it, the next byte differs. */
  lemma RunLengthIsMaximalRun(s: seq<uint8>, k: nat)
    requires |s| > 0 && k == RunLength(s)
    ensures forall j :: 0 <= j < k ==> s[j] == s[0]
    ensures k < |s| && k < MAX_RUN ==> s[k] != s[0]
  {
    RunFromIsRun(s, 1);
  }

  /** The input is its first run followed by the rest. */
  lemma RunSplit(s: seq<uint8>, k: nat)
    requires |s| > 0 && k == RunLength(s)
    ensures s == Repeat(s[0], k) + s[k..]
  {
    RunLengthIsMaximalRun(s, k);
    assert s[..k] == Repeat(s[0], k);
    assert s[..k] + s[k..] == s;
  }

  /** What the encoder emits for the run at the front of `s`. */
  function RunToken(s: seq<uint8>): (t: seq<uint8>)
    requires |s| > 0
  {
    var k := RunLength(s);
    if k > 3 then [s[0], s[0], k] else s[..k]
  }

  /** The encoded runs of `s`, in the order the scan of ppm_compress emits them. */
  function EncodeRuns(s: seq<uint8>): (r: seq<uint8>)
    ensures |r| <= |s|
    decreases |s|
  {
    if |s| == 0 then [] else RunToken(s) + EncodeRuns(s[RunLength(s)..])
  }

  /** The encoding of a non-empty input starts with its first byte (as a literal or a marker). */
  lemma EncodeRunsHead(s: seq<uint8>)
    requires |s| > 0
    ensures |EncodeRuns(s)| > 0 && EncodeRuns(s)[0] == s[0]
  {
    assert EncodeRuns(s) == RunToken(s) + EncodeRuns(s[RunLength(s)..]);
  }

  /** The 4 length bytes ppm_compress writes first: the low 32 bits of `n`, big-endian. */
  function SizePrefix(n: nat): (r: seq<uint8>)
    ensures |r| == 4
  {
    [(n / 0x100_0000) % 256, (n / 0x1_0000) % 256, (n / 0x100) % 256, n % 256]
  }

  /** The buffer ppm_compress fills for `s`: length prefix, then the runs. */
  function Encoding(s: seq<uint8>): seq<uint8> {
    SizePrefix(|s|) + EncodeRuns(s)
  }

  /** The result of ppm_compress: the encoding, or None (return 0, `*output = NULL`) when `s`
      is empty or the encoding is not strictly smaller. */
  function Compression(s: seq<uint8>): Option<seq<uint8>> {
    if |s| == 0 || |Encoding(s)| >= |s| then None else Some(Encoding(s))
  }

  /** One step of the scan: the runs of `s[i..]` are the token of its first run followed by the
      runs after it. */
  lemma {:induction false} EncodeStep(s: seq<uint8>, i: nat, k: nat, out: seq<uint8>, whole: seq<uint8>)
    requires i < |s| && k == RunLength(s[i..]) && out + EncodeRuns(s[i..]) == whole
    ensures out + RunToken(s[i..]) + EncodeRuns(s[i + k..]) == whole
  {
    var rest := s[i..];
    assert rest[k..] == s[i + k..];
    var t := RunToken(rest);
    var e := EncodeRuns(s[i + k..]);
    assert EncodeRuns(rest) == t + e;
    assert out + t + e == out + (t + e);
  }

  /** The counting loop of ppm_compress: the length of the run starting at `input[i]`. */
  method CountRun(input: seq<uint8>, i: nat) returns (count: nat)
    requires i < |input|
    ensures count == RunLength(input[i..])
  {
    var current := input[i];
    count := 1;
    while i + count < |input| && input[i + count] == current && count < MAX_RUN
      invariant 1 <= count <= MAX_RUN && i + count <= |input|
      invariant RunFrom(input[i..], count) == RunLength(input[i..])
    {
      count := count + 1;
    }
  }

  /** The literal-copy loop of ppm_compress: copies `count` input bytes from `input[i]` on to
      the buffer from index `ci` on. */
  method CopyLiterals(buf: array<uint8>, ci: nat, input: seq<uint8>, i: nat, count: nat, ghost before: seq<uint8>)
      returns (ci': nat, i': nat)
    requires i + count <= |input| && ci + count <= buf.Length && buf[..ci] == before
    modifies buf
    ensures ci' == ci + count && i' == i + count
    ensures buf[..ci'] == before + input[i..i']
  {
    ci', i' := ci, i;
    var j := 0;
    while j < count
      invariant 0 <= j <= count && i' == i + j && ci' == ci + j
      invariant buf[..ci'] == before + input[i..i']
    {
      assert input[i..i' + 1] == input[i..i'] + [input[i']];
      buf[ci'] := input[i'];
      ci', i', j := ci' + 1, i' + 1, j + 1;
    }
  }

  /** The body of the scan loop of ppm_compress once the run at `input[i]` is counted: writes
      the run's token from index `ci` on and steps both indices past it. */
  method EmitRun(buf: array<uint8>, ci: nat, input: seq<uint8>, i: nat, count: nat, ghost before: seq<uint8>)
      returns (ci': nat, i': nat)
    requires i < |input| && count == RunLength(input[i..]) && ci + count <= buf.Length
    requires buf[..ci] == before
    modifies buf
    ensures i' == i + count && ci' <= ci + count
    ensures buf[..ci'] == before + RunToken(input[i..])
  {
    var current := input[i];
    ghost var token := RunToken(input[i..]);
    if count > 3 {
      assert token == [current, current, count];
      buf[ci] := current;
      buf[ci + 1] := current;
      buf[ci + 2] := count;
      assert buf[..ci] == before;
      ci', i' := ci + 3, i + count;
    } else {
      assert token == input[i..i + count];
      ci', i' := CopyLiterals(buf, ci, input, i, count, before);
    }
  }

  /** ppm_compress: fills a buffer of `|input| + 8` bytes through a moving write index. */
  method Compress(input: seq<uint8>) returns (size: nat, output: array?<uint8>)
    ensures output == null <==> Compression(input).None?
    ensures output == null ==> size == 0
    ensures output != null ==> output.Length == |input| + 8 && 0 < size < |input|
    ensures output != null ==> output[..size] == Compression(input).value
  {
    var n := |input|;
    if n == 0 {
      return 0, null;
    }
    var buf := new uint8[n + 8];
    var prefix := SizePrefix(n);
    buf[0], buf[1], buf[2], buf[3] := prefix[0], prefix[1], prefix[2], prefix[3];
    assert buf[..4] == prefix;
    ghost var whole := Encoding(input);
    var ci, i := 4, 0;
    while i < n
      invariant 0 <= i <= n && 4 <= ci <= 4 + i
      invariant buf[..ci] + EncodeRuns(input[i..]) == whole
    {
      var count := CountRun(input, i);
      ghost var done, token, rest := buf[..ci], RunToken(input[i..]), EncodeRuns(input[i + count..]);
      EncodeStep(input, i, count, done, whole);
      ci, i := EmitRun(buf, ci, input, i, count, done);
      assert EncodeRuns(input[i..]) == rest;
    }
    assert input[n..] == [];
    assert buf[..ci] == whole;
    if ci >= n {
      return 0, null;
    }
    return ci, buf;
  }

  // ---------------------------------------------------------------- decoder

  /** The declared length as ppm_decompress computes it: `(input[0] << 24) | ...` is evaluated
      in `int`, so a first byte of 128 or more gives a negative value, which the conversion to
      `size_t` sign-extends. */
  function DeclaredSize(b: seq<uint8>): (n: nat)
    requires |b| >= 4
  {
    var v := b[0] as int * 0x100_0000 + b[1] as int * 0x1_0000 + b[2] as int * 0x100 + b[3] as int;
    if b[0] < 128 then v else v - TWO_32 + TWO_64
  }

  /** The bytes the decoding loop of ppm_decompress produces from the encoded runs `s` when
      at most `room` bytes may be written. */
  function DecodeRuns(s: seq<uint8>, room: nat): (r: seq<uint8>)
    ensures |r| <= room
    decreases |s|
  {
    if |s| == 0 || room == 0 then []
    else if 2 < |s| && s[0] == s[1] then
      var m := Min(s[2], room);
      Repeat(s[0], m) + DecodeRuns(s[3..], room - m)
    else
      [s[0]] + DecodeRuns(s[1..], room - 1)
  }

  /** The result of ppm_decompress: None (return 0, `*output = NULL`) for fewer than 4 bytes,
      a declared length of 0, or a declared length no allocation can satisfy; otherwise the
      decoded bytes (the returned size is their number). */
  function Decompression(s: seq<uint8>): Option<seq<uint8>> {
    if |s| < 4 || DeclaredSize(s) == 0 || DeclaredSize(s) > PTRDIFF_MAX then None
    else Some(DecodeRuns(s[4..], DeclaredSize(s)))
  }

  /** The inner loop of ppm_decompress: writes `value` up to `count` times from index `di` on,
      stopping at the end of the buffer. */
  method FillRun(buf: array<uint8>, di: nat, value: uint8, count: uint8, ghost done: seq<uint8>)
      returns (di': nat)
    requires di <= buf.Length && buf[..di] == done
    modifies buf
    ensures di' == di + Min(count, buf.Length - di)
    ensures buf[..di'] == done + Repeat(value, di' - di)
  {
    di' := di;
    var j := 0;
    while j < count && di' < buf.Length
      invariant 0 <= j <= count && di' == di + j <= buf.Length
      invariant buf[..di'] == done + Repeat(value, j)
    {
      buf[di'] := value;
      di' := di' + 1;
      j := j + 1;
    }
  }

  /** The body of the decoding loop of ppm_decompress: decodes the token at `input[ci]` into
      the buffer from index `di` on, writing no further than its end. */
  method DecodeToken(buf: array<uint8>, di: nat, input: seq<uint8>, ci: nat, ghost done: seq<uint8>)
      returns (di': nat, ci': nat)
    requires ci < |input| && di < buf.Length && buf[..di] == done
    modifies buf
    ensures ci < ci' <= |input| && di' <= buf.Length
    ensures buf[..di'] + DecodeRuns(input[ci'..], buf.Length - di') == done + DecodeRuns(input[ci..], buf.Length - di)
  {
    ghost var rest, room := input[ci..], buf.Length - di;
    if ci + 2 < |input| && input[ci] == input[ci + 1] {
      di' := FillRun(buf, di, input[ci], input[ci + 2], done);
      ci' := ci + 3;
      ghost var piece, after := Repeat(input[ci], di' - di), DecodeRuns(input[ci'..], room - (di' - di));
      assert rest[3..] == input[ci'..];
      assert DecodeRuns(rest, room) == piece + after;
      assert done + piece + after == done + (piece + after);
    } else {
      buf[di] := input[ci];
      di', ci' := di + 1, ci + 1;
      ghost var after := DecodeRuns(input[ci'..], room - 1);
      assert rest[1..] == input[ci'..];
      assert DecodeRuns(rest, room) == [input[ci]] + after;
      assert buf[..di'] == done + [input[ci]];
      assert done + [input[ci]] + after == done + ([input[ci]] + after);
    }
  }

  /** ppm_decompress: allocates the declared length and fills it through a moving index. */
  method Decompress(input: seq<uint8>) returns (size: nat, output: array?<uint8>)
    ensures output == null <==> Decompression(input).None?
    ensures output == null ==> size == 0
    ensures output != null ==> output.Length == DeclaredSize(input) && size <= output.Length
    ensures output != null ==> output[..size] == Decompression(input).value
  {
    var n := |input|;
    if n < 4 {
      return 0, null;
    }
    var original := DeclaredSize(input);
    if original == 0 || original > PTRDIFF_MAX {
      // a zero length is rejected; a larger one than PTRDIFF_MAX makes malloc return NULL
      return 0, null;
    }
    var buf := new uint8[original];
    ghost var whole := DecodeRuns(input[4..], original);
    var di: nat, ci: nat := 0, 4;
    while ci < n && di < original
      invariant 4 <= ci <= n && di <= original
      invariant buf[..di] + DecodeRuns(input[ci..], original - di) == whole
      decreases n - ci
    {
      ghost var done, remaining := buf[..di], DecodeRuns(input[ci..], original - di);
      di, ci := DecodeToken(buf, di, input, ci, done);
      assert done + remaining == whole;
    }
    assert DecodeRuns(input[ci..], original - di) == [];
    assert buf[..di] == whole;
    return di, buf;
  }

  // ---------------------------------------------------------------- properties

  /** The inputs the format can represent: every run the encoder takes is a single byte or
      becomes a run marker, so no two equal literals end up next to each other. */
  predicate Unambiguous(s: seq<uint8>)
    decreases |s|
  {
    |s| == 0 || (var k := RunLength(s); (k == 1 || k > 3) && Unambiguous(s[k..]))
  }

  lemma SizePrefixValue(n: nat)
    requires n < 0x8000_0000
    ensures DeclaredSize(SizePrefix(n)) == n
  {
    var q3 := n / 256;
    var q2 := q3 / 256;
    var a := q2 / 256;
    assert n == q3 * 256 + n % 256;
    assert q3 == q2 * 256 + q3 % 256;
    assert q2 == a * 256 + q2 % 256;
    assert n / 0x100 == q3 && n / 0x1_0000 == q2 && n / 0x100_0000 == a;
    assert a < 128;
  }

  /**
   * The shape of ppm_compress's result: the encoding never needs more than 4
   * bytes beyond the input, so every write stays inside the `|s| + 8` buffer; a
   * result is produced exactly when it is strictly shorter than the input, and it
   * is the length prefix followed by at least one encoded byte.
   */
  lemma CompressionShape(s: seq<uint8>)
    ensures |Encoding(s)| <= |s| + 4
    ensures Compression(s).None? <==> |s| == 0 || |Encoding(s)| >= |s|
    ensures Compression(s).Some? ==> var c := Compression(s).value;
      4 < |c| < |s| && c[..4] == SizePrefix(|s|) && c[4..] == EncodeRuns(s)
  {
    if |s| > 0 {
      EncodeRunsHead(s);
    }
  }

  /** A declared length whose first byte is 128 or more is sign-extended past PTRDIFF_MAX: nothing is decoded. */
  lemma HighSizeRejected(s: seq<uint8>)
    requires |s| >= 4 && s[0] >= 128
    ensures Decompression(s).None?
  {
    var v := s[0] as int * 0x100_0000 + s[1] as int * 0x1_0000 + s[2] as int * 0x100 + s[3] as int;
    assert v >= 0x8000_0000;
  }

  /** A run marker `[b, b, k]` decodes to `k` copies of `b` when there is room for them. */
  lemma DecodeRunMarker(b: uint8, k: uint8, tail: seq<uint8>, room: nat)
    requires k <= room
    ensures DecodeRuns([b, b, k] + tail, room) == Repeat(b, k) + DecodeRuns(tail, room - k)
  {
    var e := [b, b, k] + tail;
    assert e[0] == e[1] && e[2] == k && e[3..] == tail;
  }

  /** A literal decodes to itself unless the next byte repeats it (which would make a marker). */
  lemma DecodeLiteral(b: uint8, tail: seq<uint8>, room: nat)
    requires room > 0 && (|tail| == 0 || tail[0] != b)
    ensures DecodeRuns([b] + tail, room) == [b] + DecodeRuns(tail, room - 1)
  {
    var e := [b] + tail;
    assert e[1..] == tail;
    assert |e| > 1 ==> e[1] != e[0];
  }

  /** A run of more than 3 bytes: if the rest of the input decodes back, so does all of it. */
  lemma MarkerStep(s: seq<uint8>, k: nat, room: nat)
    requires |s| > 0 && k == RunLength(s) && 3 < k <= room
    requires DecodeRuns(EncodeRuns(s[k..]), room - k) == s[k..]
    ensures DecodeRuns(EncodeRuns(s), room) == s
  {
    var tail := EncodeRuns(s[k..]);
    assert EncodeRuns(s) == [s[0], s[0], k] + tail;
    DecodeRunMarker(s[0], k, tail, room);
    RunSplit(s, k);
  }

  /** A single-byte run: if the rest of the input decodes back, so does all of it. */
  lemma LiteralStep(s: seq<uint8>, room: nat)
    requires |s| > 0 && RunLength(s) == 1 && room > 0
    requires DecodeRuns(EncodeRuns(s[1..]), room - 1) == s[1..]
    ensures DecodeRuns(EncodeRuns(s), room) == s
  {
    var tail := EncodeRuns(s[1..]);
    assert EncodeRuns(s) == [s[0]] + tail;
    if |s| > 1 {
      EncodeRunsHead(s[1..]);
      assert s[1] != s[0] by {
        RunLengthIsMaximalRun(s, 1);
      }
    }
    DecodeLiteral(s[0], tail, room);
    assert [s[0]] + s[1..] == s;
  }

  /** On unambiguous inputs the decoder inverts the run encoder. */
  lemma {:induction false} DecodeEncodeRuns(s: seq<uint8>, room: nat)
    requires Unambiguous(s) && |s| <= room
    ensures DecodeRuns(EncodeRuns(s), room) == s
    decreases |s|
  {
    if |s| > 0 {
      var k := RunLength(s);
      DecodeEncodeRuns(s[k..], room - k);
      if k > 3 {
        MarkerStep(s, k, room);
      } else {
        LiteralStep(s, room);
      }
    }
  }

  /** Round trip: whenever ppm_compress succeeds on an unambiguous input shorter than 2^31
      bytes, ppm_decompress of its output gives the input back. */
  lemma RoundTrip(x: seq<uint8>)
    requires |x| < 0x8000_0000 && Unambiguous(x) && Compression(x).Some?
    ensures Decompression(Compression(x).value) == Some(x)
  {
    var c := Compression(x).value;
    var p := SizePrefix(|x|);
    assert c == p + EncodeRuns(x);
    assert c[0] == p[0] && c[1] == p[1] && c[2] == p[2] && c[3] == p[3];
    SizePrefixValue(|x|);
    assert DeclaredSize(c) == |x|;
    assert c[4..] == EncodeRuns(x);
    DecodeEncodeRuns(x, |x|);
  }

  /** An input with no two equal neighbours is unambiguous: every run is a single byte. */
  lemma {:induction false} DistinctNeighboursUnambiguous(s: seq<uint8>)
    requires forall j :: 0 < j < |s| ==> s[j] != s[j - 1]
    ensures Unambiguous(s)
    decreases |s|
  {
    if |s| > 0 {
      assert RunLength(s) == 1;
      DistinctNeighboursUnambiguous(s[1..]);
    }
  }

  lemma {:induction false} RunFromRepeat(b: uint8, n: nat, count: nat)
    requires 1 <= count <= n <= MAX_RUN
    ensures RunFrom(Repeat(b, n), count) == n
    decreases n - count
  {
    if count < n {
      RunFromRepeat(b, n, count + 1);
    }
  }

  /** A run of 4 to 255 equal bytes is encoded as the 3-byte marker `[b, b, n]`. */
  lemma EncodeRepeat(b: uint8, n: nat)
    requires 3 < n <= MAX_RUN
    ensures EncodeRuns(Repeat(b, n)) == [b, b, n]
  {
    var r := Repeat(b, n);
    RunFromRepeat(b, n, 1);
    assert r[n..] == [];
    assert EncodeRuns(r) == RunToken(r) + EncodeRuns(r[n..]);
  }

  /** The format is ambiguous. A pair of equal bytes is copied as two literals, so when a run
      of another byte follows it the decoder reads the pair and the run's first byte as a run
      marker: such an input compresses (to 9 bytes) ... */
  lemma AmbiguousPairCompresses(a: uint8, b: uint8)
    requires a != b
    ensures Compression([a, a] + Repeat(b, 8)) == Some([0, 0, 0, 10, a, a, b, b, 8])
  {
    var x := [a, a] + Repeat(b, 8);
    assert x[2] == b;
    assert RunFrom(x, 2) == 2;
    assert RunLength(x) == 2;
    assert x[2..] == Repeat(b, 8);
    EncodeRepeat(b, 8);
    assert EncodeRuns(x) == x[..2] + EncodeRuns(x[2..]);
    assert SizePrefix(|x|) == [0, 0, 0, 10] by {
      assert 10 / 0x100_0000 == 0 && 10 / 0x1_0000 == 0 && 10 / 0x100 == 0;
    }
    assert Encoding(x) == [0, 0, 0, 10] + [a, a, b, b, 8];
    assert [0, 0, 0, 10] + [a, a, b, b, 8] == [0, 0, 0, 10, a, a, b, b, 8];
  }

  /** ... and for 1 and 2 its compressed form decompresses to 4 bytes, not to the 10 of the input. */
  lemma AmbiguousPairDecodes()
    ensures Decompression([0, 0, 0, 10, 1, 1, 2, 2, 8]) == Some([1, 1, 2, 8])
  {
    var c: seq<uint8> := [0, 0, 0, 10, 1, 1, 2, 2, 8];
    assert DeclaredSize(c) == 10;
    assert c[4..] == [1, 1, 2, 2, 8];
    var e: seq<uint8> := [1, 1, 2, 2, 8];
    assert e[3..] == [2, 8];
    var t: seq<uint8> := [2, 8];
    assert t[1..] == [8];
    assert DecodeRuns(t, 8) == [2, 8];
    assert Repeat(1, 2) == [1, 1];
    assert DecodeRuns(e, 10) == Repeat(1, 2) + DecodeRuns(t, 8);
    assert [1, 1] + [2, 8] == [1, 1, 2, 8];
    assert Decompression(c) == Some(DecodeRuns(e, 10));
  }
}
