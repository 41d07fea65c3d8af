/** The input file as `main` uses it (comprtest.go:163-174): opened once,
    asked for its size, then read front to back through one cursor. Only
    regular files are modelled. A read fills as much of the buffer as there
    are unread bytes, with no cap on one read's length, and never fails. (A
    failing `Read` of an `*os.File` returns no bytes, so the loop would stop
    on it as on end of file.) */
module Files {
  import opened Types

  function Min(a: nat, b: nat): nat {
    if a <= b then a else b
  }

  /** The buffer after a read has copied `chunk` into its front: the rest of
      the buffer keeps the bytes it held before. */
  function Overlay(buf: seq<byte>, chunk: seq<byte>): (r: seq<byte>)
    requires |chunk| <= |buf|
    ensures |r| == |buf|
    ensures r[..|chunk|] == chunk && r[|chunk|..] == buf[|chunk|..]
  {
    chunk + buf[|chunk|..]
  }

  class File {
    /** The bytes on disk. */
    const contents: seq<byte>
    /** The read cursor: how many bytes earlier reads consumed. */
    var pos: nat

    ghost predicate Valid()
      reads this
    {
      pos <= |contents|
    }

    /** `os.Open` of a file holding `contents`. */
    constructor Open(contents: seq<byte>)
      ensures Valid()
      ensures this.contents == contents && pos == 0
    {
      this.contents := contents;
      pos := 0;
    }

    /** `Stat().Size()`: the size known up front, before anything is read.
        It is the whole length of the file, and the cursor never passes it. */
    function Size(): (n: nat)
      reads this
      requires Valid()
      ensures n == |contents|
      ensures pos <= n
    {
      |contents|
    }

    /** `Read(buf)`: copies the next `min(len(buf), unread)` bytes into the
        front of `buf`, leaves the rest of `buf` as it was, advances the
        cursor and returns the count. `eof` is Go's `io.EOF`: the file is
        exhausted and the buffer was not empty (a zero-length read of a
        zero-length buffer reports no error). */
    method Read(buf: array<byte>) returns (count: nat, eof: bool)
      requires Valid()
      modifies this, buf
      ensures Valid()
      ensures count == Min(buf.Length, |contents| - old(pos))
      ensures pos == old(pos) + count
      ensures buf[..] == Overlay(old(buf[..]), contents[old(pos)..pos])
      ensures eof <==> count == 0 && buf.Length > 0
    {
      count := Min(buf.Length, |contents| - pos);
      forall i | 0 <= i < count {
        buf[i] := contents[pos + i];
      }
      pos := pos + count;
      eof := count == 0 && buf.Length > 0;
    }
  }
}
