/**
 * `main` of the file-analysis utility (1.2laba.c:243-402): the command line
 * is parsed and validated, then the chosen operation runs over the file
 * list. xor and mask work file by file in the main process; copy and find
 * go through the worker pools.
 */
module Analyzer {
  import opened Common
  import opened XorChecksum
  import opened MaskMatch
  import opened Search
  import opened Dispatch
  import opened WorkerPool

  /** The per-file lines printed by the xor and mask operations. */
  datatype Report =
      /** `Файл %s не существует`: the path was skipped. */
    | Missing(path: Path)
      /** `XOR2 результат`: the nibble fold. */
    | NibbleDigest(path: Path, value: byte)
      /** `XORN результат` for N in [3,6]: one accumulator byte per block position. */
    | BlockDigest(path: Path, digest: seq<byte>)
      /** Every matching word, then `Найдено matches совпадений из total`. */
    | MaskCount(path: Path, matched: seq<bv32>, total: nat)

  /** What the xor operation prints for one path. */
  function XorReport(path: Path, fs: FileSystem, width: int): (r: Report)
    requires 2 <= width <= 6
    ensures r.path == path && (r.Missing? <==> path !in fs)
    ensures path in fs && width == 2 ==> r.NibbleDigest? && r.value < 16
    ensures path in fs && width > 2 ==>
      r.BlockDigest? && |r.digest| == BlockSize(width) &&
      forall i :: 0 <= i < |r.digest| ==> r.digest[i] == ColumnXor(fs[path], BlockSize(width), i)
  {
    if path !in fs then Missing(path)
    else if width == 2 then NibbleDigest(path, NibbleFold(fs[path]))
    else BlockDigest(path, Columns(fs[path], BlockSize(width)))
  }

  /** What the mask operation prints for one path. */
  function MaskReport(path: Path, fs: FileSystem, mask: bv32): (r: Report)
    ensures r.path == path && (r.Missing? <==> path !in fs)
    ensures path in fs ==>
      r.MaskCount? && r.total == |fs[path]| / 4 && |r.matched| <= r.total &&
      forall w :: w in r.matched ==> w in Words(fs[path]) && Matches(w, mask)
  {
    if path !in fs then Missing(path)
    else MaskCount(path, MatchingWords(Words(fs[path]), mask), |fs[path]| / 4)
  }

  /** A find command whose pattern the model can search for: bytes, at most a buffer after un-escaping. */
  predicate SearchableFind(argv: seq<string>)
  {
    var r := ParseArgs(argv);
    r.Ok? && r.value.Find? ==>
      IsByteString(r.value.pattern) && |Unescaped(Bytes(r.value.pattern))| <= BUFFER_SIZE
  }

  /** The xor loop of `main` (1.2laba.c:286-292). */
  method XorFiles(files: seq<Path>, fs: FileSystem, width: int) returns (reports: seq<Report>)
    requires 2 <= width <= 6
    ensures |reports| == |files|
    ensures forall i :: 0 <= i < |files| ==> reports[i] == XorReport(files[i], fs, width)
  {
    reports := [];
    for i := 0 to |files|
      invariant |reports| == i
      invariant forall j :: 0 <= j < i ==> reports[j] == XorReport(files[j], fs, width)
    {
      var path := files[i];
      var r: Report;
      if path !in fs {
        r := Missing(path);
      } else if width == 2 {
        var v := XorNibbles(fs[path]);
        r := NibbleDigest(path, v);
      } else {
        var d := XorBlocks(fs[path], width);
        r := BlockDigest(path, d);
      }
      reports := reports + [r];
    }
  }

  /** The mask loop of `main` (1.2laba.c:307-313). */
  method MaskFiles(files: seq<Path>, fs: FileSystem, mask: bv32) returns (reports: seq<Report>)
    ensures |reports| == |files|
    ensures forall i :: 0 <= i < |files| ==> reports[i] == MaskReport(files[i], fs, mask)
  {
    reports := [];
    for i := 0 to |files|
      invariant |reports| == i
      invariant forall j :: 0 <= j < i ==> reports[j] == MaskReport(files[j], fs, mask)
    {
      var path := files[i];
      var r: Report;
      if path !in fs {
        r := Missing(path);
      } else {
        var matches, total, matched := MaskScan(fs[path], mask);
        r := MaskCount(path, matched, total);
      }
      reports := reports + [r];
    }
  }

  /**
   * The whole run: exit status 1 with no work done exactly when the command
   * line is refused; otherwise status 0 and the operation's results.
   * `forkFails` are the indices of the fork attempts that fail.
   */
  method Run(argv: seq<string>, fs: FileSystem, forkFails: set<nat>)
    returns (status: int, reports: seq<Report>, copies: seq<Job>, finds: seq<FindReport>, fs': FileSystem)
    requires SearchableFind(argv)
    ensures status == 1 <==> ParseArgs(argv).Err?
    ensures status == 0 <==> ParseArgs(argv).Ok?
    ensures ParseArgs(argv).Err? ==> reports == [] && copies == [] && finds == [] && fs' == fs
    ensures ParseArgs(argv).Ok? && ParseArgs(argv).value.Xor? ==>
      var c := ParseArgs(argv).value;
      |reports| == |c.files| && (forall i :: 0 <= i < |c.files| ==> reports[i] == XorReport(c.files[i], fs, c.width)) &&
      copies == [] && finds == [] && fs' == fs
    ensures ParseArgs(argv).Ok? && ParseArgs(argv).value.Mask? ==>
      var c := ParseArgs(argv).value;
      |reports| == |c.files| && (forall i :: 0 <= i < |c.files| ==> reports[i] == MaskReport(c.files[i], fs, c.mask)) &&
      copies == [] && finds == [] && fs' == fs
    ensures ParseArgs(argv).Ok? && ParseArgs(argv).value.Copy? ==>
      var c := ParseArgs(argv).value;
      reports == [] && finds == [] &&
      copies == Survivors(CopyJobs(c.files, fs, c.copies), forkFails) && fs' == ApplyCopies(fs, copies)
    ensures ParseArgs(argv).Ok? && ParseArgs(argv).value.Find? ==>
      var c := ParseArgs(argv).value;
      reports == [] && copies == [] && fs' == fs &&
      finds == FindResults(Survivors(Existing(c.files, fs), forkFails), fs, Unescaped(Bytes(c.pattern)))
  {
    reports, copies, finds, fs' := [], [], [], fs;
    match ParseArgs(argv)
    case Err(_) =>
      status := 1;
    case Ok(cmd) =>
      status := 0;
      match cmd
      case Xor(files, width) =>
        reports := XorFiles(files, fs, width);
      case Mask(files, mask) =>
        reports := MaskFiles(files, fs, mask);
      case Copy(files, n) =>
        var reaped, peak;
        copies, reaped, peak := CopyPool(files, fs, n, forkFails);
        fs' := ApplyCopies(fs, copies);
      case Find(files, pattern) =>
        var reaped, peak;
        finds, reaped, peak := FindPool(files, fs, Bytes(pattern), forkFails);
  }
}
