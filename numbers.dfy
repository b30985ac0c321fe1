/**
 * The number conversions the command line goes through: `atoi` on the
 * suffix of `xorN` / `copyN` (1.2laba.c:280, 317), `strtoul(arg, &end, 16)`
 * on the mask (1.2laba.c:300-305), the unused `is_hex` (1.2laba.c:20-28),
 * and the decimal rendering `%d` used for copy names (1.2laba.c:341).
 */
module Numbers {
  import opened Common

  /** `ULONG_MAX` on an LP64 platform, where `strtoul` saturates. */
  const ULONG_MAX: nat := 0xFFFF_FFFF_FFFF_FFFF

  predicate IsDecimalDigit(c: char)
  {
    '0' <= c <= '9'
  }

  /** `isxdigit`. */
  predicate IsHexDigit(c: char)
  {
    IsDecimalDigit(c) || 'a' <= c <= 'f' || 'A' <= c <= 'F'
  }

  predicate IsDigitIn(c: char, base: nat)
  {
    if base == 16 then IsHexDigit(c) else IsDecimalDigit(c)
  }

  function DigitValue(c: char): (d: nat)
    requires IsHexDigit(c)
    ensures d < 16
    ensures IsDecimalDigit(c) ==> d < 10
  {
    if IsDecimalDigit(c) then c as int - '0' as int
    else if 'a' <= c <= 'f' then c as int - 'a' as int + 10
    else c as int - 'A' as int + 10
  }

  /** The character `%d` / `%X` prints for a digit value. */
  function DigitChar(d: nat): (c: char)
    requires d < 16
    ensures IsHexDigit(c) && DigitValue(c) == d
    ensures d < 10 ==> IsDecimalDigit(c)
  {
    if d < 10 then ('0' as int + d) as char else ('A' as int + d - 10) as char
  }

  /** Length of the longest prefix of `s` made of digits of the base. */
  function DigitSpan(s: string, base: nat): (k: nat)
    ensures k <= |s|
    ensures forall i :: 0 <= i < k ==> IsDigitIn(s[i], base)
    ensures k < |s| ==> !IsDigitIn(s[k], base)
  {
    if |s| == 0 || !IsDigitIn(s[0], base) then 0 else 1 + DigitSpan(s[1..], base)
  }

  /** The value of a string of digits, most significant first. */
  function DigitsValue(s: string, base: nat): nat
    requires base == 10 || base == 16
    requires forall i :: 0 <= i < |s| ==> IsDigitIn(s[i], base)
  {
    if |s| == 0 then 0
    else
      assert IsDigitIn(s[|s| - 1], base);
      DigitsValue(s[..|s| - 1], base) * base + DigitValue(s[|s| - 1])
  }

  /** `isspace` in the C locale: space, tab, newline, vertical tab, form feed, carriage return. */
  predicate IsSpace(c: char)
  {
    c == ' ' || '\t' <= c <= '\r'
  }

  /** Length of the run of white space at the start of `s`. */
  function SpaceSpan(s: string): (k: nat)
    ensures k <= |s|
    ensures forall i :: 0 <= i < k ==> IsSpace(s[i])
    ensures k < |s| ==> !IsSpace(s[k])
  {
    if |s| == 0 || !IsSpace(s[0]) then 0 else 1 + SpaceSpan(s[1..])
  }

  /**
   * `atoi`: leading white space is skipped, then an optional sign and the
   * longest run of decimal digits are read; anything after the digits is
   * ignored and no digits give 0.
   */
  function Atoi(s: string): (n: int)
    ensures n < 0 ==> Negative(s)
    ensures DigitSpan(NumberPart(s), 10) == 0 ==> n == 0
  {
    var t := s[SpaceSpan(s)..];
    if |t| > 0 && (t[0] == '-' || t[0] == '+') then
      var value: int := DigitsValue(t[1..][..DigitSpan(t[1..], 10)], 10);
      if t[0] == '-' then -value else value
    else
      DigitsValue(t[..DigitSpan(t, 10)], 10)
  }

  /** `s` begins with `0x` or `0X`. */
  predicate HasHexPrefix(s: string)
  {
    |s| >= 2 && s[0] == '0' && (s[1] == 'x' || s[1] == 'X')
  }

  /** What `strtoul` reads its digits from: `s` after leading white space and one optional sign. */
  function NumberPart(s: string): (u: string)
    ensures |u| <= |s| && u == s[|s| - |u|..]
  {
    var t := s[SpaceSpan(s)..];
    if |t| > 0 && (t[0] == '+' || t[0] == '-') then t[1..] else t
  }

  /** The sign `strtoul` reads is a minus. */
  predicate Negative(s: string)
  {
    var t := s[SpaceSpan(s)..];
    |t| > 0 && t[0] == '-'
  }

  /**
   * The digits part of `strtoul(s, &end, 16)` on `u`, what is left after
   * white space and the sign, followed by the `*end != '\0'` test and the
   * conversion to `uint32_t`: a `0x` prefix is skipped only when a hex digit
   * follows it; the longest run of hex digits is converted, saturating at
   * ULONG_MAX, negated modulo ULONG_MAX + 1 after a minus, and truncated to
   * 32 bits. The mask is refused when there are no digits or anything is
   * left after them.
   */
  function HexNumber(u: string, negative: bool): (r: Option<nat>)
    ensures r.Some? ==> r.value < 0x1_0000_0000
  {
    var start := if HasHexPrefix(u) && |u| >= 3 && IsHexDigit(u[2]) then 2 else 0;
    var k := DigitSpan(u[start..], 16);
    if k == 0 || start + k < |u| then None
    else Some(StrtoulValue(DigitsValue(u[start..start + k], 16), negative))
  }

  /**
   * What `strtoul` makes of the digits' value `v`, as a `uint32_t`: ULONG_MAX
   * when `v` overflows, the negation modulo ULONG_MAX + 1 after a minus,
   * and then the low 32 bits.
   */
  function StrtoulValue(v: nat, negative: bool): (r: nat)
    ensures r < 0x1_0000_0000
  {
    var value :=
      if v > ULONG_MAX then ULONG_MAX
      else if negative && v > 0 then ULONG_MAX + 1 - v
      else v;
    value % 0x1_0000_0000
  }

  /**
   * The mask check of `main`: `strtoul` skips white space and a sign before
   * the digits. With no digits at all `end` stays at the start of the
   * argument, so the empty string is accepted, as 0, and nothing else is.
   */
  function ParseMask(s: string): (r: Option<nat>)
    ensures s == "" ==> r == Some(0)
    ensures r.Some? ==> r.value < 0x1_0000_0000
  {
    if |s| == 0 then Some(0) else HexNumber(NumberPart(s), Negative(s))
  }

  /** Every character of `s` is a hex digit. */
  predicate AllHex(s: string)
  {
    forall i :: 0 <= i < |s| ==> IsHexDigit(s[i])
  }

  lemma {:induction false} DigitSpanAll(s: string, base: nat)
    requires forall i :: 0 <= i < |s| ==> IsDigitIn(s[i], base)
    ensures DigitSpan(s, base) == |s|
  {
    if |s| > 0 {
      DigitSpanAll(s[1..], base);
    }
  }

  /**
   * The masks `strtoul` accepts: the empty string, or, after white space and
   * a sign, hex digits behind an optional `0x`.
   */
  lemma ParseMaskAccepts(s: string)
    ensures ParseMask(s).Some? <==>
      var u := NumberPart(s);
      s == "" || (|u| >= 1 && AllHex(u)) || (|u| >= 3 && HasHexPrefix(u) && AllHex(u[2..]))
  {
    HexNumberAccepts(NumberPart(s), Negative(s));
  }

  /** `HexNumber` accepts hex digits behind an optional `0x`, and nothing else. */
  lemma HexNumberAccepts(u: string, negative: bool)
    ensures HexNumber(u, negative).Some? <==>
      (|u| >= 1 && AllHex(u)) || (|u| >= 3 && HasHexPrefix(u) && AllHex(u[2..]))
  {
    var start := if HasHexPrefix(u) && |u| >= 3 && IsHexDigit(u[2]) then 2 else 0;
    if AllHex(u[start..]) {
      DigitSpanAll(u[start..], 16);
    }
    if HasHexPrefix(u) {
      assert !AllHex(u) by {
        assert !IsHexDigit(u[1]);
      }
    }
    if start == 0 && AllHex(u) {
      assert u[start..] == u;
    }
  }

  /**
   * `is_hex`: false for the empty string; otherwise skips a `0x`/`0X`
   * prefix and checks that every remaining character is a hex digit (so a
   * bare `0x` is accepted).
   */
  method IsHex(s: string) returns (r: bool)
    ensures r <==> |s| > 0 && AllHex(if HasHexPrefix(s) then s[2..] else s)
  {
    if |s| == 0 {
      return false;
    }
    var i := if HasHexPrefix(s) then 2 else 0;
    while i < |s|
      invariant i <= |s|
      invariant forall j :: (if HasHexPrefix(s) then 2 else 0) <= j < i ==> IsHexDigit(s[j])
    {
      if !IsHexDigit(s[i]) {
        assert !IsHexDigit((if HasHexPrefix(s) then s[2..] else s)[i - (if HasHexPrefix(s) then 2 else 0)]);
        return false;
      }
      i := i + 1;
    }
    return true;
  }

  /**
   * On arguments that start with neither white space nor a sign, `is_hex`
   * and the mask check disagree on exactly three: the empty string (accepted
   * as mask 0, not hex) and a bare `0x` or `0X` (hex, but `strtoul` stops
   * after the `0`).
   */
  lemma IsHexDiffersFromParseMask(s: string)
    requires |s| == 0 || (!IsSpace(s[0]) && s[0] != '+' && s[0] != '-')
    ensures ((|s| > 0 && AllHex(if HasHexPrefix(s) then s[2..] else s)) != ParseMask(s).Some?)
        <==> (s == "" || s == "0x" || s == "0X")
  {
    assert SpaceSpan(s) == 0 && s[0..] == s;
    assert NumberPart(s) == s;
    ParseMaskAccepts(s);
    if HasHexPrefix(s) {
      assert !IsHexDigit(s[1]);
      if |s| == 2 {
        assert s == "0x" || s == "0X";
      }
    }
  }

  /** `%d` of a non-negative number. */
  function DecimalString(n: nat): (s: string)
    ensures |s| >= 1
    ensures forall i :: 0 <= i < |s| ==> IsDecimalDigit(s[i])
  {
    if n < 10 then [DigitChar(n)] else DecimalString(n / 10) + [DigitChar(n % 10)]
  }

  /** `%X` of a non-negative number. */
  function HexString(n: nat): (s: string)
    ensures |s| >= 1 && AllHex(s)
    ensures forall i :: 0 <= i < |s| ==> !('a' <= s[i] <= 'z')
  {
    if n < 16 then [DigitChar(n)] else HexString(n / 16) + [DigitChar(n % 16)]
  }

  lemma {:induction false} DecimalStringValue(n: nat)
    ensures DigitsValue(DecimalString(n), 10) == n
  {
    if n >= 10 {
      DecimalStringValue(n / 10);
      var s := DecimalString(n);
      assert s[..|s| - 1] == DecimalString(n / 10);
    }
  }

  lemma {:induction false} HexStringValue(n: nat)
    ensures DigitsValue(HexString(n), 16) == n
  {
    if n >= 16 {
      HexStringValue(n / 16);
      var s := HexString(n);
      assert s[..|s| - 1] == HexString(n / 16);
    }
  }

  /** The digit run of `d + t` is all of `d` when `t` does not start with a digit. */
  lemma {:induction false} DigitSpanOfDigitsThen(d: string, t: string, base: nat)
    requires forall i :: 0 <= i < |d| ==> IsDigitIn(d[i], base)
    requires |t| == 0 || !IsDigitIn(t[0], base)
    ensures DigitSpan(d + t, base) == |d|
  {
    if |d| > 0 {
      assert (d + t)[1..] == d[1..] + t;
      DigitSpanOfDigitsThen(d[1..], t, base);
    }
  }

  /** `atoi` stops at the first non-digit: what `%d` prints, followed by anything else, reads back the number. */
  lemma AtoiOfDecimalThen(n: nat, t: string)
    requires |t| == 0 || !IsDecimalDigit(t[0])
    ensures Atoi(DecimalString(n) + t) == n
  {
    var d := DecimalString(n);
    var s := d + t;
    assert s[0] == d[0] && !IsSpace(s[0]);
    assert s[0..] == s;
    DigitSpanOfDigitsThen(d, t, 10);
    assert s[..|d|] == d;
    DecimalStringValue(n);
  }

  /** `atoi` reads back what `%d` prints. */
  lemma AtoiOfDecimal(n: nat)
    ensures Atoi(DecimalString(n)) == n
  {
    AtoiOfDecimalThen(n, "");
    assert DecimalString(n) + "" == DecimalString(n);
  }

  /** A run of hex digits never starts with `0x`: `x` is not a hex digit. */
  lemma AllHexNoPrefix(s: string)
    requires AllHex(s)
    ensures !HasHexPrefix(s)
  {
    if |s| >= 2 {
      assert IsHexDigit(s[1]);
    }
  }

  /** A run of hex digits whose value fits in 32 bits is accepted with that value. */
  lemma ParseMaskOfDigits(s: string)
    requires |s| >= 1 && AllHex(s)
    requires DigitsValue(s, 16) < 0x1_0000_0000
    ensures ParseMask(s) == Some(DigitsValue(s, 16))
  {
    AllHexNoPrefix(s);
    assert IsHexDigit(s[0]) && !IsSpace(s[0]);
    assert NumberPart(s) == s && !Negative(s);
    HexNumberOfDigits(s, false);
    SignedModulo(DigitsValue(s, 16), false);
  }

  /** A minus in front of the digits gives the two's complement of the value in 32 bits: `mask -1` is 0xFFFFFFFF. */
  lemma ParseMaskOfNegated(s: string)
    requires |s| >= 1 && AllHex(s) && !HasHexPrefix(s)
    requires 0 < DigitsValue(s, 16) < 0x1_0000_0000
    ensures ParseMask("-" + s) == Some(0x1_0000_0000 - DigitsValue(s, 16))
  {
    MinusSign(s);
    HexNumberOfDigits(s, true);
    SignedModulo(DigitsValue(s, 16), true);
  }

  /** `strtoul` reads a leading minus as the sign and the rest as the number. */
  lemma MinusSign(s: string)
    ensures NumberPart("-" + s) == s && Negative("-" + s)
  {
    var m := "-" + s;
    assert !IsSpace(m[0]) && m[0..] == m;
    assert m[1..] == s;
  }

  /** Digits without a prefix are read whole. */
  lemma HexNumberOfDigits(s: string, negative: bool)
    requires |s| >= 1 && AllHex(s) && !HasHexPrefix(s)
    ensures HexNumber(s, negative) == Some(StrtoulValue(DigitsValue(s, 16), negative))
  {
    DigitSpanAll(s, 16);
    assert s[0..] == s && s[0..|s|] == s;
  }

  /** Below 2^32 a value is kept, and a minus negates it modulo 2^32. */
  lemma SignedModulo(v: nat, negative: bool)
    requires v < 0x1_0000_0000
    ensures StrtoulValue(v, negative) == if negative && v > 0 then 0x1_0000_0000 - v else v
  {
    if negative && v > 0 {
      assert ULONG_MAX + 1 - v == 0xFFFF_FFFF * 0x1_0000_0000 + (0x1_0000_0000 - v);
    }
  }

  /** The mask check reads back what `%X` prints. */
  lemma ParseMaskOfHex(m: nat)
    requires m < 0x1_0000_0000
    ensures ParseMask(HexString(m)) == Some(m)
  {
    HexStringValue(m);
    ParseMaskOfDigits(HexString(m));
  }

  /** `atoi` gives the same value with white space in front. */
  lemma AtoiSkipsSpace(c: char, s: string)
    requires IsSpace(c)
    ensures Atoi([c] + s) == Atoi(s)
  {
    var t := [c] + s;
    assert t[1..] == s;
    assert SpaceSpan(t) == 1 + SpaceSpan(s);
    assert t[SpaceSpan(t)..] == s[SpaceSpan(s)..];
  }

  /** Different numbers print differently, so the copy names of one file are distinct. */
  lemma DecimalStringInjective(a: nat, b: nat)
    requires DecimalString(a) == DecimalString(b)
    ensures a == b
  {
    AtoiOfDecimal(a);
    AtoiOfDecimal(b);
  }
}
