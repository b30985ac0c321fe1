/**
 * The substring search of `find_in_file` (1.2laba.c:156-241): the `memmem`
 * primitive, the un-escaping of the search argument, and the sliding-window
 * scan over a fixed 1024-byte buffer that keeps an overlap tail between reads.
 */
module Search {
  import opened Common
  import opened Streams

  /** `char buffer[1024]` in `find_in_file`. */
  const BUFFER_SIZE: nat := 1024

  const BACKSLASH: byte := 0x5C
  const LETTER_N: byte := 0x6E
  const NEWLINE: byte := 0x0A

  /** `needle` occurs in `hay` starting at offset `p`. */
  predicate OccursAt(hay: seq<byte>, needle: seq<byte>, p: int)
  {
    0 <= p && p + |needle| <= |hay| && hay[p..p + |needle|] == needle
  }

  /** `needle` is a contiguous subsequence of `hay`. */
  predicate Occurs(hay: seq<byte>, needle: seq<byte>)
  {
    exists p :: 0 <= p <= |hay| && OccursAt(hay, needle, p)
  }

  /**
   * `memmem(hay, hayLen, needle, |needle|)`: an empty needle is found at
   * offset 0, a haystack shorter than the needle yields no match, and
   * otherwise the result is the smallest offset at which the needle occurs,
   * or none when it occurs nowhere.
   */
  method MemMem(hay: array<byte>, hayLen: nat, needle: seq<byte>) returns (r: Option<nat>)
    requires hayLen <= hay.Length
    ensures |needle| == 0 ==> r == Some(0)
    ensures hayLen < |needle| ==> r == None
    ensures r.Some? ==> OccursAt(hay[..hayLen], needle, r.value)
    ensures r.Some? ==> forall q :: 0 <= q < r.value ==> !OccursAt(hay[..hayLen], needle, q)
    ensures r.None? <==> !Occurs(hay[..hayLen], needle)
  {
    var n := |needle|;
    if n == 0 {
      assert OccursAt(hay[..hayLen], needle, 0);
      return Some(0);
    }
    if hayLen < n {
      return None;
    }
    var end := hayLen - n + 1;
    var h := 0;
    while h < end
      invariant 0 <= h <= end
      invariant forall q :: 0 <= q < h ==> !OccursAt(hay[..hayLen], needle, q)
    {
      assert hay[..hayLen][h..h + n] == hay[h..h + n];
      if hay[h] == needle[0] && hay[h..h + n] == needle {
        assert OccursAt(hay[..hayLen], needle, h);
        return Some(h);
      }
      h := h + 1;
    }
    return None;
  }

  /** The search argument with every backslash immediately followed by `n` replaced by a newline byte. */
  function Unescaped(s: seq<byte>): (r: seq<byte>)
    ensures |r| <= |s|
  {
    if |s| == 0 then []
    else if |s| >= 2 && s[0] == BACKSLASH && s[1] == LETTER_N then [NEWLINE] + Unescaped(s[2..])
    else [s[0]] + Unescaped(s[1..])
  }

  /** How many backslash-n pairs the left-to-right scan replaces. */
  function EscapeCount(s: seq<byte>): nat
  {
    if |s| == 0 then 0
    else if |s| >= 2 && s[0] == BACKSLASH && s[1] == LETTER_N then 1 + EscapeCount(s[2..])
    else EscapeCount(s[1..])
  }

  /** Each replaced pair shortens the pattern by one byte, so it never grows. */
  lemma {:induction false} UnescapedLength(s: seq<byte>)
    ensures 2 * EscapeCount(s) <= |s|
    ensures |Unescaped(s)| == |s| - EscapeCount(s)
  {
    if |s| >= 2 && s[0] == BACKSLASH && s[1] == LETTER_N {
      UnescapedLength(s[2..]);
    } else if |s| > 0 {
      UnescapedLength(s[1..]);
    }
  }

  /** An argument with no backslash passes through unchanged. */
  lemma {:induction false} UnescapedWithoutBackslash(s: seq<byte>)
    requires forall i :: 0 <= i < |s| ==> s[i] != BACKSLASH
    ensures Unescaped(s) == s
  {
    if |s| > 0 {
      UnescapedWithoutBackslash(s[1..]);
    }
  }

  /** Writing each newline of a backslash-free text as backslash-n. */
  function EscapeNewlines(t: seq<byte>): (s: seq<byte>)
  {
    if |t| == 0 then []
    else if t[0] == NEWLINE then [BACKSLASH, LETTER_N] + EscapeNewlines(t[1..])
    else [t[0]] + EscapeNewlines(t[1..])
  }

  /** Every backslash-free pattern, newlines included, can be typed on the command line. */
  lemma {:induction false} UnescapeInvertsEscape(t: seq<byte>)
    requires forall i :: 0 <= i < |t| ==> t[i] != BACKSLASH
    ensures Unescaped(EscapeNewlines(t)) == t
  {
    if |t| > 0 {
      UnescapeInvertsEscape(t[1..]);
      if t[0] == NEWLINE {
        assert EscapeNewlines(t)[2..] == EscapeNewlines(t[1..]);
      } else {
        var e := EscapeNewlines(t);
        assert e[1..] == EscapeNewlines(t[1..]);
        if |e| >= 2 {
          assert e[0] == t[0];
        }
      }
    }
  }

  /** One step of the scan: a backslash-n pair becomes a newline, any other byte is copied. */
  lemma UnescapedStep(s: seq<byte>, i: nat)
    requires i < |s|
    ensures s[i] == BACKSLASH && i + 1 < |s| && s[i + 1] == LETTER_N ==>
      Unescaped(s[i..]) == [NEWLINE] + Unescaped(s[i + 2..])
    ensures !(s[i] == BACKSLASH && i + 1 < |s| && s[i + 1] == LETTER_N) ==>
      Unescaped(s[i..]) == [s[i]] + Unescaped(s[i + 1..])
  {
    assert s[i..][1..] == s[i + 1..];
    if i + 1 < |s| {
      assert s[i..][2..] == s[i + 2..];
    }
  }

  /**
   * One pass of the loop at the head of `find_in_file`: a backslash followed
   * by `n` is written as one newline and both bytes are consumed; any other
   * byte is copied.
   */
  method EmitNext(s: seq<byte>, processed: array<byte>, i: nat, j: nat, ghost out: seq<byte>)
    returns (i': nat, j': nat, ghost out': seq<byte>)
    requires processed.Length == |s| + 1 && j <= i < |s|
    requires processed[..j] == out && out + Unescaped(s[i..]) == Unescaped(s)
    modifies processed
    ensures j' == j + 1 && i < i' <= |s| && j' <= i'
    ensures processed[..j'] == out' && out' + Unescaped(s[i'..]) == Unescaped(s)
  {
    UnescapedStep(s, i);
    var c := s[i];
    i' := i + 1;
    if s[i] == BACKSLASH && i + 1 < |s| && s[i + 1] == LETTER_N {
      c, i' := NEWLINE, i + 2;
    }
    assert out + Unescaped(s[i..]) == (out + [c]) + Unescaped(s[i'..]);
    processed[j] := c;
    assert processed[..j + 1] == processed[..j] + [c];
    out', j' := out + [c], j + 1;
  }

  /**
   * The loop at the head of `find_in_file`: writes `processed_str` index by
   * index and returns it with the length `j` of the processed pattern;
   * `processed[j]` is the terminating NUL.
   */
  method Unescape(s: seq<byte>) returns (processed: array<byte>, j: nat)
    ensures processed.Length == |s| + 1
    ensures j < processed.Length
    ensures processed[..j] == Unescaped(s)
    ensures processed[j] == 0
  {
    processed := new byte[|s| + 1];
    j := 0;
    var i := 0;
    ghost var out: seq<byte> := [];
    while i < |s|
      invariant 0 <= j <= i <= |s|
      invariant processed[..j] == out
      invariant out + Unescaped(s[i..]) == Unescaped(s)
    {
      i, j, out := EmitNext(s, processed, i, j, out);
    }
    processed[j] := 0;
    assert processed[..j] == out;
  }

  /** `memmove(buf, buf + from, count)`: the `count` bytes at `from` move to the front. */
  method ShiftTail(buf: array<byte>, from: nat, count: nat)
    requires from + count <= buf.Length
    modifies buf
    ensures buf[..count] == old(buf[from..from + count])
    ensures forall k :: count <= k < buf.Length ==> buf[k] == old(buf[k])
  {
    var i := 0;
    while i < count
      invariant 0 <= i <= count
      invariant buf[..i] == old(buf[from..from + i])
      invariant forall k :: i <= k < buf.Length ==> buf[k] == old(buf[k])
    {
      buf[i] := buf[from + i];
      i := i + 1;
    }
  }

  /** An occurrence inside a window of the file is an occurrence in the window, and back. */
  lemma WindowOccurrence(file: seq<byte>, lo: nat, hi: nat, pat: seq<byte>, p: int)
    requires lo <= hi <= |file|
    ensures OccursAt(file[lo..hi], pat, p - lo) <==> (OccursAt(file, pat, p) && lo <= p && p + |pat| <= hi)
  {
    if lo <= p && p + |pat| <= hi {
      var q: nat := p - lo;
      var a, b := file[lo..hi][q..q + |pat|], file[p..p + |pat|];
      forall i | 0 <= i < |pat|
        ensures a[i] == b[i]
      {
        assert a[i] == file[lo..hi][q + i];
      }
    }
  }

  /** No occurrence of `pat` in `file` starts before offset `upto`. */
  ghost predicate NoneBefore(file: seq<byte>, pat: seq<byte>, upto: int)
  {
    forall p :: 0 <= p < upto ==> !OccursAt(file, pat, p)
  }

  /**
   * A search of the window `file[lo..hi]` that fails, after every start
   * before `lo` was ruled out, rules out every occurrence that ends by `hi`.
   */
  lemma FailedWindowSearch(file: seq<byte>, pat: seq<byte>, lo: nat, hi: nat)
    requires lo <= hi <= |file|
    requires NoneBefore(file, pat, lo)
    requires !Occurs(file[lo..hi], pat)
    ensures NoneBefore(file, pat, hi - |pat| + 1)
  {
    forall p | lo <= p < hi - |pat| + 1
      ensures !OccursAt(file, pat, p)
    {
      WindowOccurrence(file, lo, hi, pat, p);
    }
  }

  /** Once every start up to the last possible one is ruled out, the pattern occurs nowhere. */
  lemma NoneAtAll(file: seq<byte>, pat: seq<byte>)
    requires NoneBefore(file, pat, |file| - |pat| + 1)
    ensures !Occurs(file, pat)
  {
  }

  /**
   * The `memmem` call of the search loop on a buffer that holds the stretch
   * `file[lo..hi]`: a hit is an occurrence in the file, and a miss, after
   * every start before `lo` was ruled out, rules out every occurrence that
   * ends by `hi`.
   */
  method SearchWindow(buffer: array<byte>, len: nat, needle: seq<byte>,
                      ghost file: seq<byte>, ghost lo: nat, ghost hi: nat) returns (hit: bool)
    requires len <= buffer.Length && lo + len == hi <= |file|
    requires buffer[..len] == file[lo..hi]
    requires NoneBefore(file, needle, lo)
    ensures hit ==> Occurs(file, needle)
    ensures !hit ==> NoneBefore(file, needle, hi - |needle| + 1)
  {
    var r := MemMem(buffer, len, needle);
    hit := r.Some?;
    if hit {
      WindowOccurrence(file, lo, hi, needle, lo + r.value);
      assert OccursAt(file, needle, lo + r.value);
    } else {
      FailedWindowSearch(file, needle, lo, hi);
    }
  }

  /**
   * One re-read of the sliding window: when the buffer holds more than
   * `overlap` bytes only its last `overlap` bytes are kept (moved to the
   * front with `memmove`), and the rest of the buffer is refilled from the
   * file. The window stays a contiguous stretch of the file ending at the
   * cursor.
   */
  method Refill(f: Stream, buffer: array<byte>, len: nat, overlap: nat) returns (kept: nat, newRead: nat)
    requires f.Valid() && buffer.Length == BUFFER_SIZE && overlap < BUFFER_SIZE
    requires len <= f.pos && len <= BUFFER_SIZE
    requires buffer[..len] == f.contents[f.pos - len..f.pos]
    modifies f, buffer
    ensures f.Valid()
    ensures kept == Min(len, overlap)
    ensures f.pos == old(f.pos) + newRead && kept + newRead <= BUFFER_SIZE
    ensures newRead == 0 ==> f.pos == |f.contents|
    ensures buffer[..kept + newRead] == f.contents[old(f.pos) - kept..f.pos]
  {
    kept := len;
    if len > overlap {
      ShiftTail(buffer, len - overlap, overlap);
      kept := overlap;
      assert buffer[..kept] == f.contents[f.pos - kept..f.pos];
    }
    ghost var keptBytes := buffer[..kept];
    newRead := f.Read(buffer, kept, BUFFER_SIZE - kept);
    assert buffer[..kept + newRead] == buffer[..kept] + buffer[kept..kept + newRead];
    assert f.contents[old(f.pos) - kept..f.pos]
        == f.contents[old(f.pos) - kept..old(f.pos)] + f.contents[old(f.pos)..f.pos];
  }

  /**
   * The search loop of `find_in_file` on a freshly opened stream: reads
   * `1024 - overlap` bytes, and while nothing is found and the last read
   * delivered bytes, searches the whole buffer, keeps only its last
   * `overlap = |pat| - 1` bytes, and refills the rest. The pattern is found
   * exactly when it occurs anywhere in the file, also across read
   * boundaries; the empty pattern is found in every non-empty file.
   */
  method ScanStream(f: Stream, buffer: array<byte>, pat: seq<byte>) returns (found: bool)
    requires f.Valid() && f.pos == 0 && !f.eof
    requires buffer.Length == BUFFER_SIZE && |pat| <= BUFFER_SIZE
    modifies f, buffer
    ensures found <==> |f.contents| > 0 && Occurs(f.contents, pat)
  {
    ghost var file := f.contents;
    var overlap: nat := if |pat| > 0 then |pat| - 1 else 0;
    found := false;
    var bytesRead: nat := f.Read(buffer, 0, BUFFER_SIZE - overlap);
    while bytesRead > 0
      invariant f.Valid() && f.contents == file
      invariant bytesRead <= f.pos && bytesRead <= BUFFER_SIZE
      invariant buffer[..bytesRead] == file[f.pos - bytesRead..f.pos]
      invariant f.pos - bytesRead == 0 || bytesRead >= overlap
      invariant NoneBefore(file, pat, f.pos - bytesRead)
      invariant bytesRead == 0 ==> |file| == 0
      invariant !found
      decreases |file| - f.pos
    {
      var hit := SearchWindow(buffer, bytesRead, pat, file, f.pos - bytesRead, f.pos);
      if hit {
        found := true;
        break;
      }
      if f.eof {
        NoneAtAll(file, pat);
        break;
      }
      var kept, newRead := Refill(f, buffer, bytesRead, overlap);
      if newRead == 0 {
        NoneAtAll(file, pat);
        break;
      }
      bytesRead := kept + newRead;
    }
  }

  /**
   * `find_in_file` for a file that opens: un-escapes the search argument,
   * opens the file and runs the search loop over a 1024-byte buffer.
   */
  method SearchFile(file: seq<byte>, searchArg: seq<byte>) returns (found: bool)
    requires |Unescaped(searchArg)| <= BUFFER_SIZE
    ensures found <==> |file| > 0 && Occurs(file, Unescaped(searchArg))
  {
    var processed, searchLen := Unescape(searchArg);
    var f := new Stream.Open(file);
    var buffer := new byte[BUFFER_SIZE];
    found := ScanStream(f, buffer, processed[..searchLen]);
  }
}
