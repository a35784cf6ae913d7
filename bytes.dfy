/** Machine integers, byte strings and the little helpers the rest of the model shares. */
module Bytes {

  type uint8 = x: int | 0 <= x < 0x100
  type uint16 = x: int | 0 <= x < 0x1_0000
  type uint32 = x: int | 0 <= x < 0x1_0000_0000
  type uint64 = x: int | 0 <= x < 0x1_0000_0000_0000_0000

  /** A C string or a file's contents: a sequence of bytes. */
  type bytes = seq<uint8>

  /** The contents of a regular file: `ftell` reports its size as a `long`. */
  type filedata = s: bytes | |s| <= 0x7FFF_FFFF_FFFF_FFFF witness []

  const TWO_32: nat := 0x1_0000_0000
  const TWO_64: nat := 0x1_0000_0000_0000_0000
  /** LONG_MAX on an LP64 target: the largest file offset `fseek`/`ftell` can express. */
  const LONG_MAX: nat := 0x7FFF_FFFF_FFFF_FFFF
  /** PTRDIFF_MAX: no allocation larger than this can succeed. */
  const PTRDIFF_MAX: nat := 0x7FFF_FFFF_FFFF_FFFF

  const NUL: uint8 := 0
  const SLASH: uint8 := 47
  const DOT: uint8 := 46

  datatype Option<T> = None | Some(value: T)

  function Min(a: int, b: int): int { if a <= b then a else b }

  /** Unsigned 64-bit addition, which wraps around. */
  function Add64(a: uint64, b: uint64): uint64 {
    (a + b) % TWO_64
  }

  /** A value below 2^64 is its own remainder. */
  lemma ModSmall(x: nat)
    requires x < TWO_64
    ensures x % TWO_64 == x
  {
  }

  /** Reducing a running 64-bit sum before each addition gives the sum modulo 2^64. */
  lemma AddMod(total: nat, sum: nat, b: nat)
    requires total == sum % 0x1_0000_0000_0000_0000
    ensures (total + b) % 0x1_0000_0000_0000_0000 == (sum + b) % 0x1_0000_0000_0000_0000
  {
    var q := sum / 0x1_0000_0000_0000_0000;
    assert sum == q * 0x1_0000_0000_0000_0000 + total;
  }

  /** The bytes of an ASCII string literal. */
  function B(s: string): (r: bytes)
    requires forall i :: 0 <= i < |s| ==> s[i] as int < 0x100
    ensures |r| == |s|
    ensures forall i :: 0 <= i < |s| ==> r[i] == s[i] as int
  {
    seq(|s|, i requires 0 <= i < |s| => s[i] as int)
  }

  /** `n` copies of `b`. */
  function Repeat(b: uint8, n: nat): (r: bytes)
    ensures |r| == n
    ensures forall i :: 0 <= i < n ==> r[i] == b
  {
    seq(n, _ => b)
  }

  /** What `snprintf` into a buffer of `max + 1` bytes keeps of `s`. */
  function Truncate(s: bytes, max: nat): (r: bytes)
    ensures |r| == Min(|s|, max) && r == s[..|r|]
  {
    if |s| <= max then s else s[..max]
  }

  predicate NoNul(s: bytes) { forall i :: 0 <= i < |s| ==> s[i] != NUL }

  /** The C string held in a buffer: everything before the first NUL (the whole buffer if it has none). */
  function CString(buf: bytes): (r: bytes)
    ensures |r| <= |buf| && r == buf[..|r|] && NoNul(r)
    ensures |r| < |buf| ==> buf[|r|] == NUL
  {
    if |buf| == 0 || buf[0] == NUL then [] else [buf[0]] + CString(buf[1..])
  }

  /** The C string in `s + t` is `s` when `s` has no NUL and `t` is empty or starts with one. */
  lemma {:induction false} CStringUpToNul(s: bytes, t: bytes)
    requires NoNul(s) && (|t| == 0 || t[0] == NUL)
    ensures CString(s + t) == s
    decreases |s|
  {
    if |s| == 0 {
      assert s + t == t;
    } else {
      assert (s + t)[1..] == s[1..] + t;
      CStringUpToNul(s[1..], t);
    }
  }

  /** A NUL-free prefix of a buffer is a prefix of its C string. */
  lemma {:induction false} CStringAtLeast(s: bytes, i: nat)
    requires i <= |s| && NoNul(s[..i])
    ensures i <= |CString(s)|
  {
    if i > 0 {
      assert s[1..][..i - 1] == s[..i][1..];
      CStringAtLeast(s[1..], i - 1);
    }
  }

  /** The position of the last `c` in `s`, as `strrchr` finds it. */
  function LastIndexOf(s: bytes, c: uint8): (r: Option<nat>)
    ensures r.Some? ==> r.value < |s| && s[r.value] == c && forall j :: r.value < j < |s| ==> s[j] != c
    ensures r.None? ==> forall j :: 0 <= j < |s| ==> s[j] != c
  {
    if |s| == 0 then None
    else if s[|s| - 1] == c then Some(|s| - 1)
    else LastIndexOf(s[..|s| - 1], c)
  }

  predicate EndsWith(s: bytes, suffix: bytes) {
    |suffix| <= |s| && s[|s| - |suffix|..] == suffix
  }

  /** 256 to the power `w`: one more than the largest `w`-byte unsigned value. */
  function Pow256(w: nat): (r: nat)
    ensures r > 0
  {
    if w == 0 then 1 else 256 * Pow256(w - 1)
  }

  lemma Pow256Widths()
    ensures Pow256(2) == 0x1_0000 && Pow256(4) == TWO_32 && Pow256(8) == TWO_64
  {
    assert Pow256(2) == 0x1_0000;
    assert Pow256(4) == 0x100 * Pow256(3);
    assert Pow256(8) == 0x1_0000 * Pow256(6);
    assert Pow256(6) == 0x1_0000 * Pow256(4);
  }

  /** The `w` low-order bytes of `n`, least significant first. */
  function LittleEndian(n: nat, w: nat): (r: bytes)
    ensures |r| == w
  {
    if w == 0 then [] else [n % 256] + LittleEndian(n / 256, w - 1)
  }

  /** The unsigned value of a little-endian byte string. */
  function FromLittleEndian(b: bytes): (r: nat)
    ensures r < Pow256(|b|)
  {
    if |b| == 0 then 0 else b[0] + 256 * FromLittleEndian(b[1..])
  }

  lemma {:induction false} LittleEndianRoundTrip(n: nat, w: nat)
    requires n < Pow256(w)
    ensures FromLittleEndian(LittleEndian(n, w)) == n
  {
    if w > 0 {
      LittleEndianRoundTrip(n / 256, w - 1);
      assert LittleEndian(n, w)[1..] == LittleEndian(n / 256, w - 1);
    }
  }

  /** The low byte and the rest of `d + 256 * x`. */
  lemma ByteDigits(d: uint8, x: nat)
    ensures (d + 256 * x) % 256 == d && (d + 256 * x) / 256 == x
  {
    var n := d + 256 * x;
    var q, r := n / 256, n % 256;
    assert n == 256 * q + r && 0 <= r < 256;
    assert 256 * (x - q) == r - d;
  }

  lemma {:induction false} FromLittleEndianRoundTrip(b: bytes)
    ensures LittleEndian(FromLittleEndian(b), |b|) == b
  {
    if |b| > 0 {
      FromLittleEndianRoundTrip(b[1..]);
      ByteDigits(b[0], FromLittleEndian(b[1..]));
    }
  }
}
