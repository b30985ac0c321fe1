/**
 * The two process pools of `main` (1.2laba.c:323-399), reduced to what the
 * coordinating process does: it walks the existing files, forks one child
 * per job, never keeps more than MAX_PROCESSES children alive, and reaps
 * every child it started before returning. A child's work is modelled as a
 * value (the copy it makes, the search result it prints). Which fork
 * attempts fail is a parameter: the set of their indices, counted from 0.
 */
module WorkerPool {
  import opened Common
  import opened Numbers
  import opened Search

  const MAX_PROCESSES: nat := 10

  /** The file system as the pools see it: a path exists iff it is a key. */
  type FileSystem = map<Path, seq<byte>>

  /** One copy child: copy `src` to `dst`. */
  datatype Job = Job(src: Path, dst: Path)

  /** What a find child prints: whether the pattern occurs in `path`. */
  datatype FindReport = FindReport(path: Path, found: bool)

  /** `snprintf(new_name, ..., "%s_%d", src, k)` for k >= 1. */
  function CopyName(src: Path, k: nat): (name: Path)
    ensures |name| >= |src| + 2 && name[..|src| + 1] == src + "_"
    ensures forall i :: |src| < i < |name| ==> IsDecimalDigit(name[i])
  {
    src + "_" + DecimalString(k)
  }

  /** Splitting at the last `_`: a name cannot end in a longer run of digits than it has. */
  lemma DigitSuffixNotLonger(a: Path, da: string, b: Path, db: string)
    requires a + "_" + da == b + "_" + db
    requires forall i :: 0 <= i < |db| ==> IsDecimalDigit(db[i])
    ensures |db| <= |da|
  {
    assert (a + "_" + da)[|a|] == '_';
  }

  /** Distinct (source, number) pairs give distinct names: a decimal number holds no `_`. */
  lemma CopyNameInjective(a: Path, j: nat, b: Path, k: nat)
    requires CopyName(a, j) == CopyName(b, k)
    ensures a == b && j == k
  {
    var s := CopyName(a, j);
    var da, db := DecimalString(j), DecimalString(k);
    DigitSuffixNotLonger(a, da, b, db);
    DigitSuffixNotLonger(b, db, a, da);
    assert a == s[..|a|] == b;
    assert da == s[|a| + 1..] == db;
    DecimalStringInjective(j, k);
  }

  /** The files of the list that exist, in argument order. */
  function Existing(files: seq<Path>, fs: FileSystem): (r: seq<Path>)
    ensures |r| <= |files|
  {
    if |files| == 0 then []
    else
      var last := files[|files| - 1];
      Existing(files[..|files| - 1], fs) + (if last in fs then [last] else [])
  }

  /** A path is kept iff it is listed and exists. */
  lemma {:induction false} ExistingMembers(files: seq<Path>, fs: FileSystem, p: Path)
    ensures p in Existing(files, fs) <==> p in files && p in fs
  {
    if |files| > 0 {
      var init := files[..|files| - 1];
      ExistingMembers(init, fs, p);
      assert files == init + [files[|files| - 1]];
    }
  }

  /** The copies `src_1` .. `src_n` of one file, in order. */
  function CopiesOf(src: Path, n: nat): (jobs: seq<Job>)
    ensures |jobs| == n
    ensures forall j :: j in jobs ==> j.src == src
  {
    if n == 0 then [] else CopiesOf(src, n - 1) + [Job(src, CopyName(src, n))]
  }

  /** The k-th job, counted from 0, makes copy number k + 1. */
  lemma {:induction false} CopiesOfAt(src: Path, n: nat, k: nat)
    requires k < n
    ensures CopiesOf(src, n)[k] == Job(src, CopyName(src, k + 1))
  {
    if k < n - 1 {
      CopiesOfAt(src, n - 1, k);
    }
  }

  /** Every copy job the coordinator attempts, file by file. */
  function CopyJobs(files: seq<Path>, fs: FileSystem, n: nat): (jobs: seq<Job>)
    ensures forall j :: j in jobs ==> j.src in files && j.src in fs
  {
    if |files| == 0 then []
    else
      var last := files[|files| - 1];
      CopyJobs(files[..|files| - 1], fs, n) + (if last in fs then CopiesOf(last, n) else [])
  }

  /** The attempted items whose fork succeeded, in order. */
  function Survivors<T>(items: seq<T>, forkFails: set<nat>): (r: seq<T>)
    ensures |r| <= |items|
    ensures forall x :: x in r ==> x in items
  {
    if |items| == 0 then []
    else
      Survivors(items[..|items| - 1], forkFails) + (if |items| - 1 in forkFails then [] else [items[|items| - 1]])
  }

  lemma SurvivorsAppend<T>(items: seq<T>, x: T, forkFails: set<nat>)
    ensures Survivors(items + [x], forkFails) ==
            Survivors(items, forkFails) + (if |items| in forkFails then [] else [x])
  {
    assert (items + [x])[..|items|] == items;
  }

  /** With no failed fork every attempt is started. */
  lemma {:induction false} SurvivorsNoFailures<T>(items: seq<T>)
    ensures Survivors(items, {}) == items
  {
    if |items| > 0 {
      SurvivorsNoFailures(items[..|items| - 1]);
      assert items[..|items| - 1] + [items[|items| - 1]] == items;
    }
  }

  /** Arithmetic helper of CopyJobsCount, kept apart so that its nonlinear step is proved on its own. */
  lemma Distribute(n: nat, m: nat, e: nat)
    ensures n * (m + e) == n * m + n * e
  {
  }

  /** Each existing file gets exactly n jobs, so there are n times as many jobs as existing files. */
  lemma {:induction false} CopyJobsCount(files: seq<Path>, fs: FileSystem, n: nat)
    ensures |CopyJobs(files, fs, n)| == n * |Existing(files, fs)|
  {
    if |files| > 0 {
      var init := files[..|files| - 1];
      CopyJobsCount(init, fs, n);
      var m := |Existing(init, fs)|;
      var e := if files[|files| - 1] in fs then 1 else 0;
      assert |Existing(files, fs)| == m + e;
      assert |CopyJobs(files, fs, n)| == n * m + n * e;
      Distribute(n, m, e);
    }
  }

  /** Every job copies an existing file to one of its numbered names, k in [1,n]. */
  lemma {:induction false} CopyJobsShape(files: seq<Path>, fs: FileSystem, n: nat, job: Job)
    requires job in CopyJobs(files, fs, n)
    ensures job.src in files && job.src in fs
    ensures exists k :: 1 <= k <= n && job.dst == CopyName(job.src, k)
  {
    var init := files[..|files| - 1];
    var last := files[|files| - 1];
    if job in CopyJobs(init, fs, n) {
      CopyJobsShape(init, fs, n, job);
      var k :| 1 <= k <= n && job.dst == CopyName(job.src, k);
      assert job.src in init;
    } else {
      assert last in fs && job in CopiesOf(last, n);
      var i :| 0 <= i < n && CopiesOf(last, n)[i] == job;
      CopiesOfAt(last, n, i);
      assert job.dst == CopyName(job.src, i + 1);
    }
  }

  /** The copies of one source never share a destination name. */
  lemma CopiesOfDistinct(src: Path, n: nat, i: nat, j: nat)
    requires i < n && j < n && CopiesOf(src, n)[i].dst == CopiesOf(src, n)[j].dst
    ensures i == j
  {
    CopiesOfAt(src, n, i);
    CopiesOfAt(src, n, j);
    CopyNameInjective(src, i + 1, src, j + 1);
  }

  /**
   * `copy_file`: the destination becomes a copy of the source; a source that
   * cannot be opened leaves the file system as it was.
   */
  function CopyFile(fs: FileSystem, src: Path, dst: Path): (r: FileSystem)
    ensures src in fs ==> dst in r && r[dst] == fs[src]
    ensures src !in fs ==> r == fs
    ensures forall p :: p in fs && p != dst ==> p in r && r[p] == fs[p]
    ensures r.Keys <= fs.Keys + {dst}
  {
    if src in fs then fs[dst := fs[src]] else fs
  }

  /** The started copy children, run one after another. */
  function ApplyCopies(fs: FileSystem, jobs: seq<Job>): (r: FileSystem)
    ensures r.Keys <= fs.Keys + set j | j in jobs :: j.dst
  {
    if |jobs| == 0 then fs
    else
      var last := jobs[|jobs| - 1];
      CopyFile(ApplyCopies(fs, jobs[..|jobs| - 1]), last.src, last.dst)
  }

  /** Copying only ever adds or overwrites files: nothing that existed disappears. */
  lemma {:induction false} ApplyCopiesKeeps(fs: FileSystem, jobs: seq<Job>)
    ensures fs.Keys <= ApplyCopies(fs, jobs).Keys
  {
    if |jobs| > 0 {
      ApplyCopiesKeeps(fs, jobs[..|jobs| - 1]);
    }
  }

  /** A file that no job writes keeps its contents. */
  lemma {:induction false} ApplyCopiesUntouched(fs: FileSystem, jobs: seq<Job>, p: Path)
    requires p in fs
    requires forall j :: j in jobs ==> j.dst != p
    ensures p in ApplyCopies(fs, jobs) && ApplyCopies(fs, jobs)[p] == fs[p]
  {
    if |jobs| > 0 {
      var init := jobs[..|jobs| - 1];
      assert forall j :: j in init ==> j in jobs;
      ApplyCopiesUntouched(fs, init, p);
    }
  }

  /**
   * Jobs that can run in any order to the same effect: no job writes onto a
   * source, and jobs writing the same destination copy the same source.
   */
  predicate Independent(jobs: seq<Job>)
  {
    (forall j, j' :: j in jobs && j' in jobs ==> j.dst != j'.src) &&
    (forall j, j' :: j in jobs && j' in jobs && j.dst == j'.dst ==> j.src == j'.src)
  }

  /** For independent jobs over existing sources, each destination ends up equal to its source. */
  lemma {:induction false} ApplyCopiesResult(fs: FileSystem, jobs: seq<Job>, j: Job)
    requires forall j :: j in jobs ==> j.src in fs
    requires Independent(jobs)
    requires j in jobs
    ensures j.dst in ApplyCopies(fs, jobs) && ApplyCopies(fs, jobs)[j.dst] == fs[j.src]
  {
    var init := jobs[..|jobs| - 1];
    var last := jobs[|jobs| - 1];
    assert forall j :: j in init ==> j in jobs;
    ApplyCopiesUntouched(fs, init, last.src);
    if j.dst != last.dst {
      assert j in init;
      ApplyCopiesResult(fs, init, j);
    }
  }

  /**
   * Copy fidelity of the copy pool: when its jobs are independent, every
   * copy a started child makes is byte for byte its source.
   */
  lemma StartedCopiesResult(files: seq<Path>, fs: FileSystem, n: nat, forkFails: set<nat>, j: Job)
    requires Independent(CopyJobs(files, fs, n))
    requires j in Survivors(CopyJobs(files, fs, n), forkFails)
    ensures j.src in fs
    ensures j.dst in ApplyCopies(fs, Survivors(CopyJobs(files, fs, n), forkFails))
    ensures ApplyCopies(fs, Survivors(CopyJobs(files, fs, n), forkFails))[j.dst] == fs[j.src]
  {
    var jobs := CopyJobs(files, fs, n);
    var started := Survivors(jobs, forkFails);
    assert forall x :: x in started ==> x in jobs;
    ApplyCopiesResult(fs, started, j);
  }

  /** Jobs that write the same destination are the same job: same source and same copy number. */
  lemma CopyJobsOneSourcePerDestination(files: seq<Path>, fs: FileSystem, n: nat, j: Job, j': Job)
    requires j in CopyJobs(files, fs, n) && j' in CopyJobs(files, fs, n) && j.dst == j'.dst
    ensures j == j'
  {
    CopyJobsShape(files, fs, n, j);
    CopyJobsShape(files, fs, n, j');
    var k :| 1 <= k <= n && j.dst == CopyName(j.src, k);
    var k' :| 1 <= k' <= n && j'.dst == CopyName(j'.src, k');
    CopyNameInjective(j.src, k, j'.src, k');
  }

  /**
   * The coordinator's counters after `count` successful forks: at most
   * MAX_PROCESSES children alive, every other started child reaped, and the
   * pool filled up to MAX_PROCESSES before any child was reaped.
   */
  predicate Counters(active: nat, reaped: nat, peak: nat, count: nat)
  {
    active <= MAX_PROCESSES && reaped + active == count &&
    peak == Min(count, MAX_PROCESSES) && (count < MAX_PROCESSES ==> active == count)
  }

  /**
   * One fork attempt of either pool: reap one child first when
   * MAX_PROCESSES are alive; a successful fork (`forked`) adds one live
   * child, which takes slot `active' - 1`.
   */
  method ForkStep(active: nat, reaped: nat, peak: nat, ghost count: nat, forked: bool)
    returns (active': nat, reaped': nat, peak': nat)
    requires Counters(active, reaped, peak, count)
    ensures Counters(active', reaped', peak', if forked then count + 1 else count)
    ensures reaped' == reaped + (if active >= MAX_PROCESSES then 1 else 0)
    ensures active' == active - (if active >= MAX_PROCESSES then 1 else 0) + (if forked then 1 else 0)
    ensures forked ==> 1 <= active'
  {
    active', reaped', peak' := active, reaped, peak;
    if active' >= MAX_PROCESSES {
      reaped', active' := reaped' + 1, active' - 1;
    }
    if forked {
      active' := active' + 1;
      if active' > peak' {
        peak' := active';
      }
    }
  }

  /** Waiting for the remaining children leaves none alive and all started children reaped. */
  method Drain(active: nat, reaped: nat) returns (reaped': nat)
    ensures reaped' == reaped + active
  {
    var alive := active;
    reaped' := reaped;
    while alive > 0
      invariant reaped' + alive == reaped + active
    {
      reaped', alive := reaped' + 1, alive - 1;
    }
  }

  /** Attempt number |before| + k - 1 is copy number k; it is started unless that attempt fails. */
  lemma CopiesStep(before: seq<Job>, src: Path, k: nat, forkFails: set<nat>, job: Job)
    requires k >= 1 && job == Job(src, CopyName(src, k))
    ensures |before| + k - 1 in forkFails ==>
      Survivors(before + CopiesOf(src, k), forkFails) == Survivors(before + CopiesOf(src, k - 1), forkFails)
    ensures |before| + k - 1 !in forkFails ==>
      Survivors(before + CopiesOf(src, k), forkFails) == Survivors(before + CopiesOf(src, k - 1), forkFails) + [job]
  {
    var items := before + CopiesOf(src, k - 1);
    assert before + CopiesOf(src, k) == items + [job];
    SurvivorsAppend(items, job, forkFails);
  }

  /**
   * The inner loop of the copy pool for one existing file `src`: one fork
   * attempt per copy number 1..n. `before` are the jobs attempted so far.
   */
  method ForkCopies(src: Path, n: nat, forkFails: set<nat>, pids: array<int>, ghost before: seq<Job>,
                    attempt: nat, started: seq<Job>, active: nat, reaped: nat, peak: nat)
    returns (attempt': nat, started': seq<Job>, active': nat, reaped': nat, peak': nat)
    requires pids.Length == MAX_PROCESSES
    requires attempt == |before| && started == Survivors(before, forkFails)
    requires Counters(active, reaped, peak, |started|)
    modifies pids
    ensures attempt' == |before + CopiesOf(src, n)|
    ensures started' == Survivors(before + CopiesOf(src, n), forkFails)
    ensures Counters(active', reaped', peak', |started'|)
  {
    attempt', started', active', reaped', peak' := attempt, started, active, reaped, peak;
    assert before + CopiesOf(src, 0) == before;
    var k := 1;
    while k <= n
      invariant 1 <= k <= n + 1
      invariant attempt' == |before| + (k - 1)
      invariant started' == Survivors(before + CopiesOf(src, k - 1), forkFails)
      invariant Counters(active', reaped', peak', |started'|)
    {
      var job := Job(src, CopyName(src, k));
      CopiesStep(before, src, k, forkFails, job);
      var forked := attempt' !in forkFails;
      active', reaped', peak' := ForkStep(active', reaped', peak', |started'|, forked);
      if forked {
        pids[active' - 1] := attempt' + 1;
        started' := started' + [job];
      }
      attempt', k := attempt' + 1, k + 1;
    }
  }

  /**
   * The copy pool (1.2laba.c:323-357). Before each fork it reaps one child if
   * MAX_PROCESSES are alive, records a started child in `pids`, and finally
   * reaps the rest. `started` are the jobs whose fork succeeded, `reaped`
   * the children waited for, `peak` the most children alive at once.
   */
  method CopyPool(files: seq<Path>, fs: FileSystem, n: nat, forkFails: set<nat>)
    returns (started: seq<Job>, reaped: nat, peak: nat)
    ensures started == Survivors(CopyJobs(files, fs, n), forkFails)
    ensures reaped == |started|
    ensures peak == Min(|started|, MAX_PROCESSES)
  {
    var pids := new int[MAX_PROCESSES];
    var active: nat := 0;
    var attempt: nat := 0;
    started, reaped, peak := [], 0, 0;
    var i := 0;
    while i < |files|
      invariant i <= |files|
      invariant attempt == |CopyJobs(files[..i], fs, n)|
      invariant started == Survivors(CopyJobs(files[..i], fs, n), forkFails)
      invariant Counters(active, reaped, peak, |started|)
    {
      assert files[..i + 1][..i] == files[..i];
      if files[i] in fs {
        attempt, started, active, reaped, peak :=
          ForkCopies(files[i], n, forkFails, pids, CopyJobs(files[..i], fs, n), attempt, started, active, reaped, peak);
      } else {
        assert CopyJobs(files[..i + 1], fs, n) == CopyJobs(files[..i], fs, n);
      }
      i := i + 1;
    }
    assert files[..i] == files;
    reaped := Drain(active, reaped);
  }

  /** What the find children print for `paths`, one line per path, in order. */
  function FindResults(paths: seq<Path>, fs: FileSystem, pat: seq<byte>): (r: seq<FindReport>)
    ensures |r| == |paths|
  {
    if |paths| == 0 then []
    else
      var last := paths[|paths| - 1];
      FindResults(paths[..|paths| - 1], fs, pat) + [FindReport(last, last in fs && |fs[last]| > 0 && Occurs(fs[last], pat))]
  }

  /** Report q names the q-th path and says whether the pattern occurs in that file. */
  lemma {:induction false} FindResultsMeaning(paths: seq<Path>, fs: FileSystem, pat: seq<byte>, q: nat)
    requires q < |paths|
    ensures FindResults(paths, fs, pat)[q].path == paths[q]
    ensures FindResults(paths, fs, pat)[q].found <==>
      paths[q] in fs && |fs[paths[q]]| > 0 && Occurs(fs[paths[q]], pat)
  {
    if q < |paths| - 1 {
      FindResultsMeaning(paths[..|paths| - 1], fs, pat, q);
    }
  }

  /** Moving past file i: a missing file is skipped; an existing one is attempted and started unless its fork fails. */
  lemma ExistingStep(files: seq<Path>, i: nat, fs: FileSystem, forkFails: set<nat>)
    requires i < |files|
    ensures files[i] !in fs ==> Existing(files[..i + 1], fs) == Existing(files[..i], fs)
    ensures files[i] in fs ==> |Existing(files[..i + 1], fs)| == |Existing(files[..i], fs)| + 1
    ensures files[i] in fs && |Existing(files[..i], fs)| in forkFails ==>
      Survivors(Existing(files[..i + 1], fs), forkFails) == Survivors(Existing(files[..i], fs), forkFails)
    ensures files[i] in fs && |Existing(files[..i], fs)| !in forkFails ==>
      Survivors(Existing(files[..i + 1], fs), forkFails) == Survivors(Existing(files[..i], fs), forkFails) + [files[i]]
  {
    assert files[..i + 1][..i] == files[..i];
    assert files[..i + 1][i] == files[i];
    if files[i] in fs {
      assert Existing(files[..i + 1], fs) == Existing(files[..i], fs) + [files[i]];
      SurvivorsAppend(Existing(files[..i], fs), files[i], forkFails);
    }
  }

  /** A started find child: it searches `path` and its line is added to the reports. */
  method ReportSearch(path: Path, fs: FileSystem, pattern: seq<byte>, ghost started: seq<Path>, reports: seq<FindReport>)
    returns (reports': seq<FindReport>)
    requires path in fs && |Unescaped(pattern)| <= BUFFER_SIZE
    requires reports == FindResults(started, fs, Unescaped(pattern))
    ensures reports' == FindResults(started + [path], fs, Unescaped(pattern))
  {
    var found := SearchFile(fs[path], pattern);
    assert (started + [path])[..|started|] == started;
    reports' := reports + [FindReport(path, found)];
  }

  /**
   * The find pool (1.2laba.c:360-399): one child per existing file, at most
   * MAX_PROCESSES alive, each child running the search of `find_in_file`.
   * `reports` are the started children's results in fork order.
   */
  method FindPool(files: seq<Path>, fs: FileSystem, pattern: seq<byte>, forkFails: set<nat>)
    returns (reports: seq<FindReport>, reaped: nat, peak: nat)
    requires |Unescaped(pattern)| <= BUFFER_SIZE
    ensures reports == FindResults(Survivors(Existing(files, fs), forkFails), fs, Unescaped(pattern))
    ensures reaped == |reports|
    ensures peak == Min(|reports|, MAX_PROCESSES)
  {
    var active: nat := 0;
    var attempt: nat := 0;
    reports, reaped, peak := [], 0, 0;
    ghost var started: seq<Path> := [];
    ghost var pat := Unescaped(pattern);
    var i := 0;
    while i < |files|
      invariant i <= |files|
      invariant attempt == |Existing(files[..i], fs)|
      invariant started == Survivors(Existing(files[..i], fs), forkFails)
      invariant reports == FindResults(started, fs, pat)
      invariant Counters(active, reaped, peak, |reports|)
    {
      ExistingStep(files, i, fs, forkFails);
      if files[i] in fs {
        var forked := attempt !in forkFails;
        active, reaped, peak := ForkStep(active, reaped, peak, |reports|, forked);
        if forked {
          reports := ReportSearch(files[i], fs, pattern, started, reports);
          started := started + [files[i]];
        }
        attempt := attempt + 1;
      }
      i := i + 1;
    }
    assert files[..i] == files;
    reaped := Drain(active, reaped);
  }
}
