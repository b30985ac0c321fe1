/**
 * The block XOR checksum of `xor_operation` (1.2laba.c:30-98).
 *
 * For a width N in [3,6] the file is cut into blocks of (1 << N) / 8 bytes,
 * the last one padded with zero bytes, and the blocks are XORed byte by byte
 * into an accumulator of the same size. For N = 2 every nibble of the file is
 * XORed into one four-bit value.
 */
module XorChecksum {
  import opened Common
  import opened Streams

  function Pow2(n: nat): (p: nat)
    ensures p >= 1
  {
    if n == 0 then 1 else 2 * Pow2(n - 1)
  }

  /** `(1 << n) / 8`: the block size in bytes for widths 3 to 6 is 1, 2, 4 or 8. */
  function BlockSize(n: int): (k: nat)
    requires 3 <= n <= 6
    ensures k * 8 == Pow2(n)
    ensures k == 1 || k == 2 || k == 4 || k == 8
  {
    assert Pow2(3) == 8 && Pow2(4) == 16 && Pow2(5) == 32 && Pow2(6) == 64;
    Pow2(n) / 8
  }

  /**
   * The reference definition of the block checksum: byte `i` of the
   * accumulator is the XOR of every byte of `s` whose offset is congruent to
   * `i` modulo the block size `k`.
   */
  function ColumnXor(s: seq<byte>, k: nat, i: nat): (b: byte)
    requires k > 0
    ensures i >= k ==> b == 0
  {
    if |s| == 0 then 0
    else ColumnXor(s[..|s| - 1], k, i) ^ (if (|s| - 1) % k == i then s[|s| - 1] else 0)
  }

  /**
   * XOR of the high and the low nibble of every byte of `s`, as XOR2 folds
   * them. XORing nibbles only ever gives a nibble, so the `& 0x0F` of the
   * report removes nothing.
   */
  function NibbleFold(s: seq<byte>): (d: byte)
    ensures d < 16
  {
    if |s| == 0 then 0
    else
      var a, b := NibbleFold(s[..|s| - 1]), s[|s| - 1];
      assert a < 16 ==> (a ^ (b >> 4) ^ (b & 0x0F)) < 16;
      a ^ (b >> 4) ^ (b & 0x0F)
  }

  /** Block sizes are the powers of two from 1 to 8; splitting on them keeps the modular arithmetic linear. */
  predicate IsBlockSize(k: nat)
  {
    k == 1 || k == 2 || k == 4 || k == 8
  }

  lemma ModOfMultiplePlus(p: nat, r: nat, k: nat)
    requires IsBlockSize(k) && p % k == 0 && r <= k
    ensures r < k ==> (p + r) % k == r
    ensures r == k ==> (p + r) % k == 0
  {
    if k == 1 {
    } else if k == 2 {
    } else if k == 4 {
    } else {
    }
  }

  /**
   * Folding one block that starts at a multiple `p` of the block size and
   * holds `r <= k` bytes XORs `s[p + i]` into accumulator byte `i` for
   * `i < r` and leaves the other accumulator bytes alone: this is what
   * zero-padding a short final block achieves.
   */
  lemma LastByteStep(s: seq<byte>, m: nat, k: nat, i: nat)
    requires k > 0 && 0 < m <= |s|
    ensures ColumnXor(s[..m], k, i)
         == ColumnXor(s[..m - 1], k, i) ^ (if (m - 1) % k == i then s[m - 1] else 0)
  {
    assert s[..m][..m - 1] == s[..m - 1];
  }

  lemma {:induction false} BlockStep(s: seq<byte>, p: nat, r: nat, k: nat, i: nat)
    requires IsBlockSize(k) && p % k == 0 && r <= k && p + r <= |s| && i < k
    ensures ColumnXor(s[..p + r], k, i)
         == ColumnXor(s[..p], k, i) ^ (if i < r then s[p + i] else 0)
  {
    if r == 0 {
      assert s[..p + r] == s[..p];
    } else {
      BlockStep(s, p, r - 1, k, i);
      LastByteStep(s, p + r, k, i);
      ModOfMultiplePlus(p, r - 1, k);
      var before := ColumnXor(s[..p], k, i);
      if i < r - 1 {
        assert (p + r - 1) % k != i;
      } else if i == r - 1 {
        assert ColumnXor(s[..p + r - 1], k, i) == before ^ 0;
      } else {
        assert (p + r - 1) % k != i;
      }
    }
  }

  /**
   * Appending zero bytes never changes any accumulator byte, so a file and
   * the same file zero-padded to the next block boundary have equal checksums.
   */
  lemma {:induction false} ZeroPaddingInvariant(s: seq<byte>, m: nat, k: nat, i: nat)
    requires k > 0
    ensures ColumnXor(s + Zeros(m), k, i) == ColumnXor(s, k, i)
  {
    if m > 0 {
      var t := s + Zeros(m);
      assert t[..|t| - 1] == s + Zeros(m - 1);
      ZeroPaddingInvariant(s, m - 1, k, i);
    } else {
      assert s + Zeros(m) == s;
    }
  }

  /**
   * The XOR2 digest is the XOR of the two nibbles of the XOR3 digest (the
   * XOR of all bytes): the nibble fold can be computed from the byte fold.
   */
  lemma {:induction false} NibbleFoldOfByteFold(s: seq<byte>)
    ensures NibbleFold(s) == (ColumnXor(s, 1, 0) >> 4) ^ (ColumnXor(s, 1, 0) & 0x0F)
  {
    if |s| > 0 {
      NibbleFoldOfByteFold(s[..|s| - 1]);
      var x, b := ColumnXor(s[..|s| - 1], 1, 0), s[|s| - 1];
      assert (|s| - 1) % 1 == 0;
      assert ((x ^ b) >> 4) ^ ((x ^ b) & 0x0F) == (x >> 4) ^ (x & 0x0F) ^ (b >> 4) ^ (b & 0x0F);
    }
  }

  /**
   * `xor_operation` for N = 2: reads the file byte by byte and XORs both
   * nibbles of each byte into `xor_result`; the result is reported masked
   * with 0x0F.
   */
  method XorNibbles(file: seq<byte>) returns (digest: byte)
    ensures digest == NibbleFold(file)
    ensures digest < 16
  {
    var f := new Stream.Open(file);
    var buffer := new byte[1];
    var acc: byte := 0;
    var nibbleCount := 0;
    while true
      invariant f.Valid() && f.contents == file
      invariant acc == NibbleFold(file[..f.pos])
      invariant nibbleCount == 2 * f.pos
      decreases |file| - f.pos
    {
      ghost var before := f.pos;
      var got := f.Read(buffer, 0, 1);
      if got != 1 {
        break;
      }
      var b := buffer[0];
      assert file[..f.pos][..f.pos - 1] == file[..before] && b == file[..f.pos][f.pos - 1];
      var highNibble := b >> 4;
      var lowNibble := b & 0x0F;
      acc := acc ^ highNibble;
      acc := acc ^ lowNibble;
      nibbleCount := nibbleCount + 2;
    }
    assert file[..f.pos] == file;
    if nibbleCount % 2 != 0 {
      // The count grows by two per byte, so it is never odd.
      assert false;
    }
    digest := acc & 0x0F;
  }

  /** `memset(buf + from, 0, buf.Length - from)`. */
  method ZeroFill(buf: array<byte>, from: nat)
    requires from <= buf.Length
    modifies buf
    ensures buf[..from] == old(buf[..from])
    ensures forall j :: from <= j < buf.Length ==> buf[j] == 0
  {
    var z := from;
    while z < buf.Length
      invariant from <= z <= buf.Length
      invariant buf[..from] == old(buf[..from])
      invariant forall j :: from <= j < z ==> buf[j] == 0
    {
      buf[z] := 0;
      z := z + 1;
    }
  }

  /** `for (i = 0; i < size; i++) acc[i] ^= block[i];` */
  method XorInto(acc: array<byte>, block: array<byte>)
    requires acc.Length == block.Length && acc != block
    modifies acc
    ensures forall j :: 0 <= j < acc.Length ==> acc[j] == old(acc[j]) ^ block[j]
  {
    for i := 0 to acc.Length
      invariant forall j :: 0 <= j < i ==> acc[j] == old(acc[j]) ^ block[j]
      invariant forall j :: i <= j < acc.Length ==> acc[j] == old(acc[j])
    {
      acc[i] := acc[i] ^ block[i];
    }
  }

  /** The whole accumulator: byte i is the XOR of the bytes at offsets congruent to i modulo k. */
  function Columns(s: seq<byte>, k: nat): (d: seq<byte>)
    requires k > 0
    ensures |d| == k
    ensures forall i :: 0 <= i < k ==> d[i] == ColumnXor(s, k, i)
  {
    seq(k, i requires 0 <= i < k => ColumnXor(s, k, i))
  }

  /** XORing the zero-padded block at `p` into the accumulator of `s[..p]` gives the accumulator of `s[..p + r]`. */
  lemma FoldBlock(s: seq<byte>, p: nat, r: nat, k: nat, before: seq<byte>, block: seq<byte>, after: seq<byte>)
    requires IsBlockSize(k) && p % k == 0 && r <= k && p + r <= |s|
    requires |before| == k && |block| == k && |after| == k
    requires before == Columns(s[..p], k)
    requires block[..r] == s[p..p + r]
    requires forall j :: r <= j < k ==> block[j] == 0
    requires forall j :: 0 <= j < k ==> after[j] == before[j] ^ block[j]
    ensures after == Columns(s[..p + r], k)
  {
    forall i | 0 <= i < k
      ensures after[i] == ColumnXor(s[..p + r], k, i)
    {
      if i < r {
        assert block[i] == block[..r][i] == s[p..p + r][i] == s[p + i];
      }
      BlockStep(s, p, r, k, i);
    }
  }

  /**
   * One pass of the block loop: reads up to `k` bytes into `buffer`, pads the
   * rest of it with zeros and XORs it into `acc`, which then holds the
   * accumulator of everything read so far.
   */
  method FoldNext(f: Stream, buffer: array<byte>, acc: array<byte>, k: nat) returns (got: nat)
    requires f.Valid() && IsBlockSize(k) && buffer.Length == k && acc.Length == k && buffer != acc
    requires f.pos % k == 0 || f.pos == |f.contents|
    requires acc[..] == Columns(f.contents[..f.pos], k)
    modifies f, buffer, acc
    ensures f.Valid() && got == Min(k, |f.contents| - old(f.pos)) && f.pos == old(f.pos) + got
    ensures acc[..] == Columns(f.contents[..f.pos], k)
    ensures f.pos % k == 0 || f.pos == |f.contents|
  {
    ghost var p := f.pos;
    got := f.Read(buffer, 0, k);
    if got == 0 {
      return;
    }
    if got < k {
      ZeroFill(buffer, got);
    }
    ghost var block := buffer[..];
    assert block[..got] == f.contents[p..p + got];
    ghost var before := acc[..];
    XorInto(acc, buffer);
    FoldBlock(f.contents, p, got, k, before, block, acc[..]);
    ModOfMultiplePlus(p, got, k);
  }

  /**
   * `xor_operation` for N in [3,6]: reads blocks of BlockSize(n) bytes,
   * zero-pads a short final block with `memset`, and XORs each block into
   * the `calloc`ed accumulator in place. Accumulator byte `i` ends up as the
   * XOR of every file byte at an offset congruent to `i` modulo the block size.
   */
  method XorBlocks(file: seq<byte>, n: int) returns (digest: seq<byte>)
    requires 3 <= n <= 6
    ensures |digest| == BlockSize(n)
    ensures digest == Columns(file, |digest|)
  {
    var f := new Stream.Open(file);
    var k := BlockSize(n);
    var buffer := new byte[k];
    var acc := new byte[k](_ => 0);
    assert acc[..] == Columns(file[..0], k);
    while true
      invariant fresh(f) && fresh(buffer) && fresh(acc)
      invariant f.Valid() && f.contents == file
      invariant IsBlockSize(k) && buffer.Length == k && acc.Length == k
      invariant f.pos % k == 0 || f.pos == |file|
      invariant acc[..] == Columns(file[..f.pos], k)
      decreases |file| - f.pos
    {
      var got := FoldNext(f, buffer, acc, k);
      if got == 0 {
        break;
      }
    }
    assert file[..f.pos] == file;
    digest := acc[..];
  }
}
