/**
 * A file opened for writing ("wb"): its contents, the cursor, and how many bytes
 * the device will hold.  `fwrite` writes as much of the buffer as fits and
 * reports how much that was; `fseek(..., 0, SEEK_SET)` moves the cursor back to
 * the start without changing the contents.
 */
module Stream {
  import opened Bytes

  /** The abstract state of an output file. */
  datatype Sink = Sink(contents: bytes, pos: nat, capacity: nat)
  {
    predicate Valid() { pos <= |contents| <= capacity <= LONG_MAX }
  }

  /** `s` with the bytes from `pos` on replaced by `w` (and extended where `w` runs past the end). */
  function Overwrite(s: bytes, pos: nat, w: bytes): (r: bytes)
    requires pos <= |s|
    ensures |r| == if pos + |w| <= |s| then |s| else pos + |w|
    ensures r[..pos] == s[..pos] && r[pos..pos + |w|] == w
    ensures pos + |w| <= |s| ==> r[pos + |w|..] == s[pos + |w|..]
  {
    if pos + |w| <= |s| then s[..pos] + w + s[pos + |w|..] else s[..pos] + w
  }

  /**
   * What one `fwrite` of `buf` does: it writes the part of `buf` that still fits
   * below the capacity at the cursor and returns how many bytes that was.
   */
  function Put(k: Sink, buf: bytes): (r: (Sink, nat))
    requires k.Valid()
    ensures r.0.Valid() && r.0.capacity == k.capacity
    ensures r.1 == Min(|buf|, k.capacity - k.pos) && r.0.pos == k.pos + r.1
    ensures r.0.contents == Overwrite(k.contents, k.pos, buf[..r.1])
    ensures k.pos == |k.contents| ==> r.0.contents == k.contents + buf[..r.1]
  {
    var n := Min(|buf|, k.capacity - k.pos);
    (Sink(Overwrite(k.contents, k.pos, buf[..n]), k.pos + n, k.capacity), n)
  }

  /** An output file. */
  class OutFile {
    var contents: bytes
    var pos: nat
    const capacity: nat

    function Model(): Sink
      reads this
    {
      Sink(contents, pos, capacity)
    }

    ghost predicate Valid()
      reads this
    {
      Model().Valid()
    }

    /** `fopen(path, "wb")`: an empty file on a device that holds `capacity` bytes. */
    constructor Open(capacity: nat)
      requires capacity <= LONG_MAX
      ensures Valid() && Model() == Sink([], 0, capacity)
    {
      contents, pos, this.capacity := [], 0, capacity;
    }

    /** `fwrite(buf, 1, |buf|, file)`. */
    method Write(buf: bytes) returns (written: nat)
      requires Valid()
      modifies this
      ensures Valid() && (Model(), written) == Put(old(Model()), buf)
    {
      written := Min(|buf|, capacity - pos);
      contents := Overwrite(contents, pos, buf[..written]);
      pos := pos + written;
    }

    /** `fseek(file, 0, SEEK_SET)`. */
    method Rewind()
      requires Valid()
      modifies this
      ensures Valid() && Model() == old(Model()).(pos := 0)
    {
      pos := 0;
    }
  }
}
