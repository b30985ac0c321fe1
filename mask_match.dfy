/**
 * The 32-bit mask matcher of `mask_operation` (1.2laba.c:100-121): the file
 * is read as consecutive whole 4-byte words, and a word matches when every
 * bit of the mask is set in it.
 */
module MaskMatch {
  import opened Common
  import opened Streams

  /** A word read by `fread(&value, 4, 1, file)`, taking the bytes in little-endian order. */
  function WordOf(b0: byte, b1: byte, b2: byte, b3: byte): (w: bv32)
    ensures w & 0xFF == b0 as bv32 && (w >> 8) & 0xFF == b1 as bv32
    ensures (w >> 16) & 0xFF == b2 as bv32 && w >> 24 == b3 as bv32
  {
    (b0 as bv32) | (b1 as bv32 << 8) | (b2 as bv32 << 16) | (b3 as bv32 << 24)
  }

  /** The whole words of a file; a trailing partial word is dropped. */
  function Words(s: seq<byte>): (ws: seq<bv32>)
    ensures |ws| == |s| / 4
  {
    seq(|s| / 4, j requires 0 <= j < |s| / 4 => WordOf(s[4 * j], s[4 * j + 1], s[4 * j + 2], s[4 * j + 3]))
  }

  /** `(value & mask) == mask`: every bit of the mask is set in the word. */
  predicate Matches(w: bv32, mask: bv32): (m: bool)
    ensures m <==> w | mask == w
  {
    w & mask == mask
  }

  /** The matching words, in file order: what the matcher prints one per line. */
  function MatchingWords(ws: seq<bv32>, mask: bv32): (r: seq<bv32>)
    ensures |r| <= |ws|
    ensures forall w :: w in r ==> w in ws && Matches(w, mask)
  {
    if ws == [] then []
    else MatchingWords(ws[..|ws| - 1], mask) + (if Matches(ws[|ws| - 1], mask) then [ws[|ws| - 1]] else [])
  }

  /** A word is reported if and only if it is one of the file's words and it matches. */
  lemma {:induction false} MatchingWordsExactly(ws: seq<bv32>, mask: bv32, w: bv32)
    ensures w in MatchingWords(ws, mask) <==> w in ws && Matches(w, mask)
  {
    if ws != [] {
      var init, last := ws[..|ws| - 1], ws[|ws| - 1];
      MatchingWordsExactly(init, mask, w);
      assert ws == init + [last];
      assert w in ws <==> w in init || w == last;
    }
  }

  /** With mask 0 every whole word matches, so the match count equals the word count. */
  lemma {:induction false} ZeroMaskMatchesAll(ws: seq<bv32>)
    ensures MatchingWords(ws, 0) == ws
  {
    if ws != [] {
      ZeroMaskMatchesAll(ws[..|ws| - 1]);
      assert ws == ws[..|ws| - 1] + [ws[|ws| - 1]];
    }
  }

  /** The match count reaches the word count exactly when every word matches. */
  lemma {:induction false} AllMatchIffCountsEqual(ws: seq<bv32>, mask: bv32)
    ensures |MatchingWords(ws, mask)| == |ws| <==> forall j :: 0 <= j < |ws| ==> Matches(ws[j], mask)
  {
    if ws != [] {
      var init := ws[..|ws| - 1];
      AllMatchIffCountsEqual(init, mask);
      if forall j :: 0 <= j < |ws| ==> Matches(ws[j], mask) {
        assert forall j :: 0 <= j < |init| ==> Matches(init[j], mask) by {
          forall j | 0 <= j < |init| ensures Matches(init[j], mask) {
            assert init[j] == ws[j];
          }
        }
      } else {
        var j :| 0 <= j < |ws| && !Matches(ws[j], mask);
        if j < |init| {
          assert init[j] == ws[j];
        }
      }
    }
  }

  /** One more word: it is reported after the earlier ones exactly when it matches. */
  lemma MatchingWordsStep(ws: seq<bv32>, n: nat, mask: bv32)
    requires n < |ws|
    ensures MatchingWords(ws[..n + 1], mask) ==
      MatchingWords(ws[..n], mask) + (if Matches(ws[n], mask) then [ws[n]] else [])
  {
    assert ws[..n + 1][..n] == ws[..n];
  }

  /** Word j is made of bytes 4j .. 4j+3. */
  lemma WordsAt(file: seq<byte>, j: nat, p: nat)
    requires p == 4 * j && p + 4 <= |file|
    ensures j < |Words(file)|
    ensures var c := file[p..p + 4]; Words(file)[j] == WordOf(c[0], c[1], c[2], c[3])
  {
  }

  /**
   * `fread(&value, 4, 1, file)` at word boundary `4 * t`: either the next
   * whole word, or a report that fewer than four bytes were left.
   */
  method NextWord(f: Stream, value: array<byte>, t: nat) returns (some: bool, w: bv32)
    requires f.Valid() && value.Length == 4 && f.pos == 4 * t <= |f.contents|
    modifies f, value
    ensures f.Valid()
    ensures some ==> t < |Words(f.contents)| && w == Words(f.contents)[t] && f.pos == 4 * (t + 1)
    ensures !some ==> t == |f.contents| / 4
  {
    ghost var p := f.pos;
    var got := f.Read(value, 0, 4);
    some, w := got == 4, 0;
    if some {
      var chunk := value[..4];
      assert chunk == f.contents[p..p + 4];
      w := WordOf(chunk[0], chunk[1], chunk[2], chunk[3]);
      WordsAt(f.contents, t, p);
    }
  }

  /**
   * One pass of the loop of `mask_operation`: read the next word; when there
   * is one, count it, and count and report it when it matches the mask.
   */
  method ScanNext(f: Stream, value: array<byte>, mask: bv32, total: nat, matches: nat, reported: seq<bv32>)
    returns (some: bool, total': nat, matches': nat, reported': seq<bv32>)
    requires f.Valid() && value.Length == 4 && f.pos == 4 * total <= |f.contents|
    requires reported == MatchingWords(Words(f.contents)[..total], mask) && matches == |reported|
    modifies f, value
    ensures f.Valid()
    ensures some ==> total' == total + 1 && f.pos == 4 * total' <= |f.contents|
    ensures !some ==> total' == total == |f.contents| / 4
    ensures reported' == MatchingWords(Words(f.contents)[..total'], mask) && matches' == |reported'|
  {
    var w;
    some, w := NextWord(f, value, total);
    total', matches', reported' := total, matches, reported;
    if some {
      MatchingWordsStep(Words(f.contents), total, mask);
      total' := total + 1;
      if Matches(w, mask) {
        matches', reported' := matches + 1, reported + [w];
      }
    }
  }

  /**
   * `mask_operation`: counts every whole word read as `total`, and counts
   * and reports the words that match the mask.
   */
  method MaskScan(file: seq<byte>, mask: bv32) returns (matches: nat, total: nat, reported: seq<bv32>)
    ensures total == |file| / 4
    ensures reported == MatchingWords(Words(file), mask)
    ensures matches == |reported| <= total
  {
    var f := new Stream.Open(file);
    var value := new byte[4];
    matches, total, reported := 0, 0, [];
    while true
      invariant f.Valid() && f.contents == file
      invariant f.pos == 4 * total <= |file|
      invariant reported == MatchingWords(Words(file)[..total], mask)
      invariant matches == |reported|
      decreases |file| - f.pos
    {
      var some;
      some, total, matches, reported := ScanNext(f, value, mask, total, matches, reported);
      if !some {
        break;
      }
    }
    assert Words(file)[..total] == Words(file);
  }
}
