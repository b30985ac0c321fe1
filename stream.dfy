/**
 * A read-only C stream (`FILE *` opened with mode "rb") over the bytes of a
 * file: a cursor and the end-of-file indicator that `feof` reports.
 */
module Streams {
  import opened Common

  class Stream {
    /** The bytes of the file the stream was opened on. */
    const contents: seq<byte>
    /** How many bytes have been consumed. */
    var pos: nat
    /** The end-of-file indicator: set once a read delivered fewer bytes than it asked for. */
    var eof: bool

    ghost predicate Valid()
      reads this
    {
      pos <= |contents| && (eof ==> pos == |contents|)
    }

    /** `fopen(name, "rb")` on an existing, readable file. */
    constructor Open(data: seq<byte>)
      ensures Valid()
      ensures contents == data && pos == 0 && !eof
    {
      contents := data;
      pos := 0;
      eof := false;
    }

    /**
     * `fread(buf + off, 1, count, stream)`: copies up to `count` bytes at the
     * cursor into `buf[off..]`, advances the cursor, returns how many it
     * copied, and sets the end-of-file indicator when that is fewer than
     * `count`. A request for zero bytes changes nothing.
     */
    method Read(buf: array<byte>, off: nat, count: nat) returns (n: nat)
      requires Valid()
      requires off + count <= buf.Length
      modifies this, buf
      ensures Valid()
      ensures n == Min(count, |contents| - old(pos))
      ensures pos == old(pos) + n
      ensures eof == (old(eof) || n < count)
      ensures buf[..off] == old(buf[..off])
      ensures buf[off..off + n] == contents[old(pos)..pos]
      ensures buf[off + n..] == old(buf[off + n..])
    {
      n := Min(count, |contents| - pos);
      var i := 0;
      while i < n
        invariant 0 <= i <= n
        modifies buf
        invariant buf[..off] == old(buf[..off])
        invariant buf[off..off + i] == contents[pos..pos + i]
        invariant buf[off + i..] == old(buf[off + i..])
      {
        buf[off + i] := contents[pos + i];
        i := i + 1;
      }
      pos := pos + n;
      eof := eof || n < count;
    }
  }
}
