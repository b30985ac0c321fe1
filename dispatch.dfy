/**
 * The argument split and validation at the top of `main` (1.2laba.c:243-321):
 * the operation is taken from the last one or two arguments, everything
 * between the program name and the operation is the file list, and the
 * operation's parameter is checked before any work starts.
 */
module Dispatch {
  import opened Common
  import opened Numbers

  /** One validated invocation. */
  datatype Command =
    | Xor(files: seq<Path>, width: int)
    | Mask(files: seq<Path>, mask: bv32)
    | Copy(files: seq<Path>, copies: int)
    | Find(files: seq<Path>, pattern: string)

  /** The command lines `main` refuses with exit status 1. */
  datatype UsageError =
    | TooFewArguments
    | NoFiles
    | XorWidthOutOfRange(width: int)
    | MalformedMask
    | NonPositiveCopyCount(copies: int)
      /** Neither form matched; the source then reads `last_file_index` uninitialised. */
    | UndefinedFileRange

  predicate StartsWith(s: string, prefix: string)
  {
    |prefix| <= |s| && s[..|prefix|] == prefix
  }

  /** The operation is read from the last argument alone: `xorN` or `copyN`. */
  predicate TrailingToken(op: string)
  {
    StartsWith(op, "xor") || StartsWith(op, "copy")
  }

  /** The trailing-token form: `xorN` needs N in [2,6], `copyN` needs N > 0. */
  function TrailingCommand(files: seq<Path>, op: string): (r: Result<Command, UsageError>)
    requires TrailingToken(op)
    ensures r.Ok? ==> r.value.files == files && (r.value.Xor? || r.value.Copy?)
    ensures r.Ok? && r.value.Xor? ==> 2 <= r.value.width <= 6
    ensures r.Ok? && r.value.Copy? ==> r.value.copies > 0
    ensures r.Err? ==> r.error.XorWidthOutOfRange? || r.error.NonPositiveCopyCount?
  {
    if StartsWith(op, "xor") then
      var n := Atoi(op[3..]);
      if n < 2 || n > 6 then Err(XorWidthOutOfRange(n)) else Ok(Xor(files, n))
    else
      var n := Atoi(op[4..]);
      if n <= 0 then Err(NonPositiveCopyCount(n)) else Ok(Copy(files, n))
  }

  /** The `mask M` / `find S` form: at least one file, and a mask the mask check accepts. */
  function WordCommand(files: seq<Path>, word: string, arg: string): (r: Result<Command, UsageError>)
    requires word == "mask" || word == "find"
    ensures r.Ok? ==> |files| >= 1 && r.value.files == files
    ensures r.Ok? ==> (r.value.Mask? && word == "mask") || (r.value.Find? && word == "find" && r.value.pattern == arg)
    ensures r == Err(NoFiles) <==> |files| == 0
    ensures r == Err(MalformedMask) <==> |files| >= 1 && word == "mask" && ParseMask(arg).None?
    ensures r.Err? ==> r.error.NoFiles? || r.error.MalformedMask?
  {
    if |files| == 0 then Err(NoFiles)
    else if word == "mask" then
      match ParseMask(arg)
      case None => Err(MalformedMask)
      case Some(m) => Ok(Mask(files, m as bv32))
    else Ok(Find(files, arg))
  }

  /**
   * `main` up to the start of the work: fewer than two arguments after the
   * program name are refused; a last argument starting with `xor` or `copy`
   * leaves `argv[1..argc-2]` as the files; otherwise `mask` or `find` in
   * position argc-2 leaves `argv[1..argc-3]`; the xor width must lie in
   * [2,6], the copy count must be positive and the whole mask must be hex.
   */
  function ParseArgs(argv: seq<string>): (r: Result<Command, UsageError>)
    ensures |argv| < 3 <==> r == Err(TooFewArguments)
    ensures r.Ok? ==> 1 <= |r.value.files| < |argv| && r.value.files == argv[1..1 + |r.value.files|]
    ensures r.Ok? && r.value.Xor? ==> 2 <= r.value.width <= 6 && |argv| == |r.value.files| + 2
    ensures r.Ok? && r.value.Copy? ==> r.value.copies > 0 && |argv| == |r.value.files| + 2
    ensures r.Ok? && r.value.Mask? ==> |argv| == |r.value.files| + 3 && argv[|argv| - 2] == "mask"
    ensures r.Ok? && r.value.Find? ==>
      |argv| == |r.value.files| + 3 && argv[|argv| - 2] == "find" && r.value.pattern == argv[|argv| - 1]
    ensures r == Err(NoFiles) <==>
      |argv| == 3 && !TrailingToken(argv[2]) && (argv[1] == "mask" || argv[1] == "find")
    ensures r == Err(UndefinedFileRange) <==>
      |argv| >= 3 && !TrailingToken(argv[|argv| - 1]) && argv[|argv| - 2] != "mask" && argv[|argv| - 2] != "find"
    ensures r == Err(MalformedMask) <==>
      |argv| >= 4 && !TrailingToken(argv[|argv| - 1]) && argv[|argv| - 2] == "mask" && ParseMask(argv[|argv| - 1]).None?
  {
    if |argv| < 3 then Err(TooFewArguments)
    else
      var op := argv[|argv| - 1];
      if TrailingToken(op) then TrailingCommand(argv[1..|argv| - 1], op)
      else if argv[|argv| - 2] == "mask" || argv[|argv| - 2] == "find" then
        WordCommand(argv[1..|argv| - 2], argv[|argv| - 2], op)
      else Err(UndefinedFileRange)
  }

  /**
   * Any last argument `xor` + s: the width is what `atoi` reads from s; a
   * width outside [2,6] is refused with that width.
   */
  lemma ParseXorToken(prog: string, files: seq<Path>, s: string)
    requires |files| >= 1
    ensures 2 <= Atoi(s) <= 6 ==> ParseArgs([prog] + files + ["xor" + s]) == Ok(Xor(files, Atoi(s)))
    ensures !(2 <= Atoi(s) <= 6) ==> ParseArgs([prog] + files + ["xor" + s]) == Err(XorWidthOutOfRange(Atoi(s)))
  {
    var argv := [prog] + files + ["xor" + s];
    var op := "xor" + s;
    assert op[..3] == "xor" && op[3..] == s;
    assert argv[|argv| - 1] == op;
    assert argv[1..|argv| - 1] == files;
  }

  /**
   * Any last argument `copy` + s: the count is what `atoi` reads from s; a
   * count of zero or below is refused with that count.
   */
  lemma ParseCopyToken(prog: string, files: seq<Path>, s: string)
    requires |files| >= 1
    ensures Atoi(s) > 0 ==> ParseArgs([prog] + files + ["copy" + s]) == Ok(Copy(files, Atoi(s)))
    ensures Atoi(s) <= 0 ==> ParseArgs([prog] + files + ["copy" + s]) == Err(NonPositiveCopyCount(Atoi(s)))
  {
    var argv := [prog] + files + ["copy" + s];
    var op := "copy" + s;
    assert op[..4] == "copy" && op[4..] == s;
    assert !StartsWith(op, "xor") by {
      assert op[0] == 'c';
    }
    assert argv[|argv| - 1] == op;
    assert argv[1..|argv| - 1] == files;
  }

  /**
   * `mask M` after at least one file: accepted exactly when the mask check
   * accepts M, with the value `strtoul` gives, and refused as malformed
   * otherwise (unless M itself reads as a trailing `xor`/`copy` token).
   */
  lemma ParseMaskToken(prog: string, files: seq<Path>, m: string)
    requires |files| >= 1 && !TrailingToken(m)
    ensures ParseMask(m).Some? ==> ParseArgs([prog] + files + ["mask", m]) == Ok(Mask(files, ParseMask(m).value as bv32))
    ensures ParseMask(m).None? ==> ParseArgs([prog] + files + ["mask", m]) == Err(MalformedMask)
  {
    var argv := [prog] + files + ["mask", m];
    assert argv[|argv| - 2] == "mask" && argv[|argv| - 1] == m;
    assert argv[1..|argv| - 2] == files;
  }

  /** A `xorN` invocation with N in [2,6] is accepted with exactly the files before it. */
  lemma ParseXor(prog: string, files: seq<Path>, n: nat)
    requires |files| >= 1 && 2 <= n <= 6
    ensures ParseArgs([prog] + files + ["xor" + DecimalString(n)]) == Ok(Xor(files, n))
  {
    ParseXorToken(prog, files, DecimalString(n));
    AtoiOfDecimal(n);
  }

  /** A `copyN` invocation with N > 0 is accepted with exactly the files before it. */
  lemma ParseCopy(prog: string, files: seq<Path>, n: nat)
    requires |files| >= 1 && n > 0
    ensures ParseArgs([prog] + files + ["copy" + DecimalString(n)]) == Ok(Copy(files, n))
  {
    ParseCopyToken(prog, files, DecimalString(n));
    AtoiOfDecimal(n);
  }

  /** A number printed in hex starts with a digit, so it never reads as `xorN` or `copyN`. */
  lemma HexStringNotToken(n: nat)
    ensures !TrailingToken(HexString(n))
  {
    var h := HexString(n);
    assert IsHexDigit(h[0]);
    assert h[0] != 'x' && h[0] != 'c';
  }

  /** A `mask M` invocation with M printed in hex is accepted with the files before it. */
  lemma ParseMaskCommand(prog: string, files: seq<Path>, m: bv32)
    requires |files| >= 1
    ensures ParseArgs([prog] + files + ["mask", HexString(m as nat)]) == Ok(Mask(files, m))
  {
    var v := m as nat;
    HexStringNotToken(v);
    ParseMaskOfHex(v);
    ParseMaskToken(prog, files, HexString(v));
    assert v as bv32 == m;
  }

  /**
   * A `find P` invocation is accepted with the files before it, unless the
   * pattern itself starts with `xor` or `copy`: then the trailing-token form
   * takes precedence (see FindPatternShadowed).
   */
  lemma ParseFind(prog: string, files: seq<Path>, pattern: string)
    requires |files| >= 1
    requires !TrailingToken(pattern)
    ensures ParseArgs([prog] + files + ["find", pattern]) == Ok(Find(files, pattern))
  {
    var argv := [prog] + files + ["find", pattern];
    assert argv[|argv| - 2] == "find" && argv[|argv| - 1] == pattern;
    assert argv[1..|argv| - 2] == files;
  }

  /**
   * A find pattern starting with `xor` or `copy` is never searched for: the
   * trailing-token check comes first, so the pattern is read as the
   * operation and the word `find` joins the file list.
   */
  lemma FindPatternShadowed(prog: string, files: seq<Path>, p: string)
    requires TrailingToken(p)
    ensures StartsWith(p, "xor") ==>
      ParseArgs([prog] + files + ["find", p]) ==
        if 2 <= Atoi(p[3..]) <= 6 then Ok(Xor(files + ["find"], Atoi(p[3..])))
        else Err(XorWidthOutOfRange(Atoi(p[3..])))
    ensures StartsWith(p, "copy") ==>
      ParseArgs([prog] + files + ["find", p]) ==
        if Atoi(p[4..]) > 0 then Ok(Copy(files + ["find"], Atoi(p[4..])))
        else Err(NonPositiveCopyCount(Atoi(p[4..])))
  {
    var before := files + ["find"];
    assert [prog] + files + ["find", p] == [prog] + before + [p];
    if StartsWith(p, "xor") {
      var s := p[3..];
      assert p == "xor" + s;
      assert !StartsWith(p, "copy") by {
        assert p[0] == 'x';
      }
      ParseXorToken(prog, before, s);
    } else {
      var s := p[4..];
      assert p == "copy" + s;
      ParseCopyToken(prog, before, s);
    }
  }

  /** `atoi` ignores what follows the digits: `xor3abc` is accepted as width 3. */
  lemma XorSuffixIgnored(prog: string, files: seq<Path>, n: nat, t: string)
    requires |files| >= 1 && 2 <= n <= 6
    requires |t| == 0 || !IsDecimalDigit(t[0])
    ensures ParseArgs([prog] + files + ["xor" + DecimalString(n) + t]) == Ok(Xor(files, n))
  {
    assert "xor" + DecimalString(n) + t == "xor" + (DecimalString(n) + t);
    AtoiOfDecimalThen(n, t);
    ParseXorToken(prog, files, DecimalString(n) + t);
  }
}
