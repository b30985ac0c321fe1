# File utility and user registry — a Dafny model

This project models two C programs and proves properties of the models.

- `1.2laba.c` is a command-line file utility. It takes a list of files followed by an operation:
  - `xorN` folds each file into an XOR checksum of width N in 2..6;
  - `mask M` counts the 4-byte words that contain every bit of a hex mask;
  - `copyN` makes N numbered copies of each file in forked children, at most ten at a time;
  - `find S` searches each file for a string in forked children. In the string, `\n` stands for a newline.
- `1.1laba.c` is an interactive user registry with request quotas. It has:
  - registration with an alphanumeric login of up to six characters and a PIN;
  - log-in by PIN, and log-out;
  - a per-user request limit set by the `Sanctions` command;
  - a gate in front of every command: a user at the limit is logged out;
  - the date check of the `Howmuch` command.

Layout, one module per file:

| file | module | models |
|---|---|---|
| `common.dfy` | `Common` | bytes, paths, `Option`/`Result`, small helpers |
| `stream.dfy` | `Streams` | a `FILE *` opened for reading: `fread` and `feof` |
| `numbers.dfy` | `Numbers` | `atoi`, `strtoul(…, 16)`, `is_hex`, the `%d` / `%X` renderings |
| `xor_checksum.dfy` | `XorChecksum` | `xor_operation` |
| `mask_match.dfy` | `MaskMatch` | `mask_operation` |
| `search.dfy` | `Search` | `memmem`, the un-escaping and the sliding-window search of `find_in_file` |
| `dispatch.dfy` | `Dispatch` | the argument split and validation of `main` |
| `worker_pool.dfy` | `WorkerPool` | the copy and find process pools of `main`, copy naming, `copy_file` |
| `analyzer.dfy` | `Analyzer` | `main` of the file utility as a whole |
| `registry.dfy` | `Registry` | `valid_login`, `registration`, `authorization`, `logout`, `set_sanctions`, the quota gate, the date check |

What the model does with the outside world:
- A file is its bytes (`seq<byte>`).
- The file system is a map from path to contents. A path exists exactly when it is a key.
- The command line is a sequence of strings.
- Which `fork` calls fail is a parameter: the set of failing attempt numbers.
- What the user types at the registry's prompts (login, PIN, confirmation word) is passed as method arguments.

Code that works by mutation is imperative in the model:
- the block loop of the checksum, over an `array` accumulator;
- the sliding window of the search, over a 1024-byte `array` buffer;
- the pool loops with their counters and `pids` array;
- the registry, a `class Current` whose methods update its fields.

Each such method is proved against a reference function: `Columns`, `MatchingWords`, `Occurs`, `Survivors`/`CopyJobs`/`FindResults`, `Lookup`/`Registration`/`Admits`.

## Model

| member | source | states |
|---|---|---|
| Common.Zeros | 1.2laba.c:80-82 | the zero padding `memset` writes: n bytes, all zero |
| Streams.Stream.constructor | 1.2laba.c:31 | a freshly opened stream is at offset 0 with the end-of-file flag clear |
| Streams.Stream.Read | 1.2laba.c:77 | `fread` returns min(count, bytes left), copies exactly those bytes of the file into the buffer, leaves the rest of the buffer alone, advances the cursor by that much, and sets the end-of-file flag when it delivered fewer bytes than asked |
| Numbers.DigitSpan | 1.2laba.c:280 | the digit run `atoi` reads: every character in it is a digit and the next one is not |
| Numbers.Atoi | 1.2laba.c:280 | `atoi` gives a negative value only after a minus sign, and 0 when no digit follows the white space and sign |
| Numbers.ParseMask | 1.2laba.c:300-305 | the empty mask is accepted as 0; every accepted mask is below 2^32 |
| Numbers.HexNumber | 1.2laba.c:300-305 | the digits part of `strtoul` plus the `*endptr` test: an accepted value fits in 32 bits |
| Numbers.StrtoulValue | 1.2laba.c:301 | the value `strtoul` returns, converted to `uint32_t`, is below 2^32 |
| Numbers.ParseMaskAccepts | 1.2laba.c:300-305 | a mask is accepted iff it is empty or, after white space and a sign, consists of hex digits behind an optional `0x` |
| Numbers.HexNumberAccepts | 1.2laba.c:301-302 | the digits part accepts exactly a non-empty run of hex digits behind an optional `0x` |
| Numbers.ParseMaskOfDigits | 1.2laba.c:300-305 | a hex number below 2^32 is accepted with its own value |
| Numbers.ParseMaskOfNegated | 1.2laba.c:300-305 | `-h` is accepted as the 32-bit two's complement of h, so `mask -1` is 0xFFFFFFFF |
| Numbers.SignedModulo | 1.2laba.c:301 | below 2^32, `strtoul`'s negation modulo ULONG_MAX + 1 and the cast to 32 bits negate modulo 2^32 |
| Numbers.ParseMaskOfHex | 1.2laba.c:300-305 | the mask check reads back every 32-bit value printed with `%X` |
| Numbers.IsHex | 1.2laba.c:20-28 | `is_hex` is true iff the string is non-empty and all of it after an optional `0x`/`0X` is hex digits |
| Numbers.IsHexDiffersFromParseMask | 1.2laba.c:20-28 | on arguments without leading white space or sign, `is_hex` and the mask check disagree exactly on `""`, `"0x"` and `"0X"` |
| Numbers.DecimalString | 1.2laba.c:341 | `%d` of a natural number is a non-empty string of decimal digits |
| Numbers.HexString | 1.2laba.c:301 | `%X` of a natural number is a non-empty string of upper-case hex digits |
| Numbers.DecimalStringValue | 1.2laba.c:341 | the digits `%d` prints have the printed value |
| Numbers.HexStringValue | 1.2laba.c:301 | the digits `%X` prints have the printed value |
| Numbers.AtoiOfDecimal | 1.2laba.c:280 | `atoi` reads back what `%d` prints |
| Numbers.AtoiOfDecimalThen | 1.2laba.c:280 | `atoi` stops at the first non-digit: a number printed with `%d` and followed by anything that does not start with a digit reads back as that number |
| Numbers.AtoiSkipsSpace | 1.2laba.c:280 | `atoi` ignores leading white space |
| Numbers.DecimalStringInjective | 1.2laba.c:341 | different copy numbers print differently |
| XorChecksum.BlockSize | 1.2laba.c:60 | `(1 << N) / 8` is 1, 2, 4 or 8 bytes for N in 3..6, and times 8 gives 2^N |
| XorChecksum.ColumnXor | 1.2laba.c:68-87 | the XOR of the bytes at offsets congruent to i modulo the block size; a position at or past the block size collects no byte and stays 0 |
| XorChecksum.BlockStep | 1.2laba.c:76-87 | folding a block of r ≤ k bytes at a block boundary XORs byte p+i into accumulator byte i for i < r and leaves the others alone |
| XorChecksum.FoldBlock | 1.2laba.c:76-87 | XORing a zero-padded block into the accumulator of a file prefix gives the accumulator of the longer prefix |
| XorChecksum.ZeroPaddingInvariant | 1.2laba.c:80-82 | appending zero bytes never changes the checksum, so padding the last block is harmless |
| XorChecksum.NibbleFold | 1.2laba.c:44-55 | the XOR of the high and low nibbles of every byte is always below 16, so the final `& 0x0F` removes nothing |
| XorChecksum.NibbleFoldOfByteFold | 1.2laba.c:37-55 | the XOR2 value is the XOR of the two nibbles of the XOR of all bytes |
| XorChecksum.XorNibbles | 1.2laba.c:37-55 | the XOR2 loop returns the XOR of the high and low nibble of every byte of the file, a value below 16 |
| XorChecksum.ZeroFill | 1.2laba.c:80-82 | `memset` zeroes the tail of the buffer and keeps the bytes before it |
| XorChecksum.XorInto | 1.2laba.c:84-86 | every accumulator byte becomes its old value XOR the block byte at the same position |
| XorChecksum.Columns | 1.2laba.c:68-87 | accumulator byte i is the XOR of every byte whose offset is i modulo the block size |
| XorChecksum.FoldNext | 1.2laba.c:76-87 | one pass of the block loop keeps the accumulator equal to the checksum of everything read so far and the cursor on a block boundary or at the end |
| XorChecksum.XorBlocks | 1.2laba.c:60-87 | for N in 3..6 the result has (1 << N) / 8 bytes, and byte i is the XOR of every file byte at an offset congruent to i |
| MaskMatch.Words | 1.2laba.c:111 | a file holds length / 4 whole words; a trailing partial word is never read |
| MaskMatch.WordOf | 1.2laba.c:111 | a word read by `fread` holds its first byte in the low 8 bits and its fourth byte in the high 8 bits |
| MaskMatch.Matches | 1.2laba.c:113 | `(value & mask) == mask` holds iff OR-ing the mask into the word changes nothing, so every bit of the mask is set in the word |
| MaskMatch.MatchingWords | 1.2laba.c:111-117 | the matching words are at most as many as the words, and each is one of the file's words and matches the mask |
| MaskMatch.MatchingWordsExactly | 1.2laba.c:113-116 | a word is reported iff it is in the file and contains every bit of the mask |
| MaskMatch.ZeroMaskMatchesAll | 1.2laba.c:113 | with mask 0 every word matches |
| MaskMatch.AllMatchIffCountsEqual | 1.2laba.c:111-119 | the match count equals the word count iff every word matches |
| MaskMatch.NextWord | 1.2laba.c:111 | `fread(&value, 4, 1, file)` at word boundary 4t gives word t of the file and moves the cursor to the next boundary, or reports that fewer than four bytes were left, when t is the number of whole words |
| MaskMatch.ScanNext | 1.2laba.c:111-117 | one pass of the loop counts the next word and reports it iff it matches, keeping `reported` equal to the matching words of what has been read |
| MaskMatch.MaskScan | 1.2laba.c:100-121 | `total` is the number of whole words, `reported` is the matching words in file order, and `matches` is their count |
| Search.MemMem | 1.2laba.c:156-171 | an empty needle is found at 0; a short haystack gives no match; otherwise the result is the first offset where the needle occurs, and none iff it occurs nowhere |
| Search.Unescaped | 1.2laba.c:176-183 | the left-to-right replacement of `\n` pairs by newlines never makes the pattern longer than the argument |
| Search.UnescapedLength | 1.2laba.c:174-184 | each `\n` pair shortens the pattern by one byte, so it fits the buffer `malloc`ed for the argument |
| Search.UnescapedWithoutBackslash | 1.2laba.c:176-183 | an argument without a backslash is searched for unchanged |
| Search.UnescapeInvertsEscape | 1.2laba.c:176-183 | every backslash-free byte string, newlines included, can be searched for by writing each newline as `\n` |
| Search.EmitNext | 1.2laba.c:176-182 | one pass writes a newline for a `\n` pair and copies any other byte, keeping what has been written plus the un-escaped rest equal to the un-escaped argument |
| Search.Unescape | 1.2laba.c:174-184 | the loop writes the un-escaped pattern followed by a NUL into a buffer of the argument's length plus one |
| Search.ShiftTail | 1.2laba.c:210 | `memmove` brings the `count` bytes at `from` to the front and leaves every byte from `count` on unchanged |
| Search.WindowOccurrence | 1.2laba.c:202 | an occurrence in a window of the file is an occurrence in the file that lies inside the window, and back |
| Search.FailedWindowSearch | 1.2laba.c:202-205 | a failed search of a window rules out every occurrence that ends inside it |
| Search.NoneAtAll | 1.2laba.c:201-217 | once every start position is ruled out the pattern does not occur |
| Search.SearchWindow | 1.2laba.c:202-205 | a hit in the buffer is an occurrence in the file; a miss rules out every occurrence ending by the window's end |
| Search.Refill | 1.2laba.c:209-216 | keeping the last `overlap` bytes and refilling leaves the buffer equal to a contiguous stretch of the file ending at the cursor |
| Search.ScanStream | 1.2laba.c:193-217 | the loop finds the pattern iff the file is non-empty and the pattern occurs in it, also across read boundaries |
| Search.SearchFile | 1.2laba.c:173-217 | `find_in_file` reports found iff the file is non-empty and contains the un-escaped argument |
| Dispatch.TrailingCommand | 1.2laba.c:279-321 | a trailing `xorN`/`copyN` is accepted only with N in 2..6 or N > 0, keeps every argument before it as a file, and is otherwise refused with an out-of-range width or a non-positive count |
| Dispatch.WordCommand | 1.2laba.c:264-305 | `mask`/`find` with no file before it is refused as `NoFiles` and only then; a mask is refused as malformed iff the mask check refuses it; `find` keeps its argument as the pattern |
| Dispatch.ParseArgs | 1.2laba.c:244-321 | fewer than two arguments after the program name is a usage error, and only then; an accepted command's files are exactly the arguments between the program name and the operation; the xor width is in 2..6 and the copy count positive; `mask`/`find` sit in the next-to-last position; `NoFiles`, `MalformedMask` and the undefined file range are each returned exactly for the command lines that cause them |
| Dispatch.ParseXorToken | 1.2laba.c:259-284 | for any last argument `xor` + s after at least one file, the result is XOR of those files with width `atoi(s)` when that is in 2..6, and the refusal with that width otherwise |
| Dispatch.ParseCopyToken | 1.2laba.c:259-321 | for any last argument `copy` + s after at least one file, the result is copy of those files with count `atoi(s)` when that is positive, and the refusal with that count otherwise |
| Dispatch.ParseMaskToken | 1.2laba.c:264-305 | `files… mask M` is accepted with the value `strtoul` gives iff the mask check accepts M, and refused as malformed otherwise |
| Dispatch.ParseXor | 1.2laba.c:259-292 | `files… xorN` with N in 2..6 is accepted as XOR of exactly those files |
| Dispatch.ParseCopy | 1.2laba.c:259-321 | `files… copyN` with N > 0 is accepted as copy of exactly those files |
| Dispatch.ParseMaskCommand | 1.2laba.c:264-305 | `files… mask M` with M printed in hex is accepted with mask M |
| Dispatch.ParseFind | 1.2laba.c:264-268 | `files… find S` is accepted as a search for S unless S starts with `xor` or `copy` |
| Dispatch.FindPatternShadowed | 1.2laba.c:259-263 | a find pattern that starts with `xor` or `copy` is never searched for: it is read as the operation, `find` becomes one more file, and the width or count is `atoi` of the rest (so `prog a find xor3` XORs `a` and `find`) |
| Dispatch.XorSuffixIgnored | 1.2laba.c:280 | `xorN` followed by anything that does not start with a digit is accepted as width N, so `xor3abc` is width 3 |
| WorkerPool.CopyName | 1.2laba.c:341 | the copy name is the source name, an underscore and a non-empty run of decimal digits |
| WorkerPool.DigitSuffixNotLonger | 1.2laba.c:341 | when two names `a_da` and `b_db` are equal and db is all digits, db is no longer than da |
| WorkerPool.CopyNameInjective | 1.2laba.c:341 | two (file, copy number) pairs give the same copy name only if they are equal |
| WorkerPool.Existing | 1.2laba.c:326-330 | the files that pass `file_exists` are at most as many as the listed files |
| WorkerPool.ExistingMembers | 1.2laba.c:326-330 | a path is worked on iff it is listed and exists |
| WorkerPool.CopiesOf | 1.2laba.c:332 | each existing file gets exactly N copy jobs, all with that file as the source |
| WorkerPool.CopiesOfAt | 1.2laba.c:332-341 | the k-th job of a file writes `file_k+1` |
| WorkerPool.Survivors | 1.2laba.c:338-351 | the started jobs are at most as many as the attempted ones, and every started job is one of the attempted ones |
| WorkerPool.SurvivorsAppend | 1.2laba.c:338-351 | one more attempt adds its job to the started ones iff its fork succeeds |
| WorkerPool.SurvivorsNoFailures | 1.2laba.c:338-351 | when no fork fails every job is started |
| WorkerPool.CopyJobs | 1.2laba.c:326-352 | every job the copy pool attempts copies a listed file that exists |
| WorkerPool.CopyJobsCount | 1.2laba.c:326-352 | the copy pool attempts N jobs per existing file |
| WorkerPool.CopyJobsShape | 1.2laba.c:326-352 | every job copies an existing listed file to one of its names `file_1` .. `file_N` |
| WorkerPool.CopiesOfDistinct | 1.2laba.c:341 | the copies of one file never share a name |
| WorkerPool.CopyFile | 1.2laba.c:123-154 | `copy_file` makes the destination equal to the source, changes no other path, and changes nothing when the source cannot be opened |
| WorkerPool.ApplyCopies | 1.2laba.c:338-344 | running the started copy children creates no path other than their destinations |
| WorkerPool.ApplyCopiesKeeps | 1.2laba.c:338-344 | copying never removes a file |
| WorkerPool.ApplyCopiesUntouched | 1.2laba.c:338-344 | a file that no job writes keeps its contents |
| WorkerPool.ApplyCopiesResult | 1.2laba.c:338-344 | for independent jobs every destination ends up equal to its source |
| WorkerPool.CopyJobsOneSourcePerDestination | 1.2laba.c:326-352 | jobs that write the same destination are the same job, with the same source and copy number |
| WorkerPool.StartedCopiesResult | 1.2laba.c:323-357 | when the copy pool's jobs are independent, every destination a started child writes ends up byte-identical to its source |
| WorkerPool.ForkStep | 1.2laba.c:333-350 | before a fork exactly one child is reaped when ten are alive and none otherwise, and a successful fork adds exactly one live child; so never more than ten are alive, and the pool fills to ten before the first reap |
| WorkerPool.Drain | 1.2laba.c:354-357 | the final wait loop reaps every child still alive |
| WorkerPool.CopiesStep | 1.2laba.c:332-351 | copy number k of a file is the next attempt, started iff its fork succeeds |
| WorkerPool.ForkCopies | 1.2laba.c:332-351 | the inner loop attempts the copies 1..N of one file and keeps the counters' invariant |
| WorkerPool.CopyPool | 1.2laba.c:323-357 | the started jobs are the attempted jobs whose fork succeeded, in order; every started child is reaped; the most children alive at once is min(started, 10) |
| WorkerPool.FindResults | 1.2laba.c:369-392 | one report per started file |
| WorkerPool.FindResultsMeaning | 1.2laba.c:381-384 | report q names the q-th started file and says whether the pattern occurs in it |
| WorkerPool.ExistingStep | 1.2laba.c:369-392 | a missing file is skipped; an existing one is attempted and started iff its fork succeeds |
| WorkerPool.ReportSearch | 1.2laba.c:381-384 | a started child adds the search result for its file |
| WorkerPool.FindPool | 1.2laba.c:360-399 | the reports are the search results of the existing files whose fork succeeded, listed in fork order; every started child is reaped; at most ten are alive at once |
| Analyzer.XorReport | 1.2laba.c:286-292 | a missing file gives the missing-file line and only then; XOR2 gives a nibble; XOR3..6 give (1 << N) / 8 bytes, byte i the XOR of the file's bytes at offsets congruent to i |
| Analyzer.MaskReport | 1.2laba.c:307-313 | a missing file gives the missing-file line and only then; otherwise the word count is length / 4 and every reported word is a word of the file that matches the mask |
| Analyzer.XorFiles | 1.2laba.c:286-292 | one report per listed file: missing, or the XOR checksum of its contents |
| Analyzer.MaskFiles | 1.2laba.c:307-313 | one report per listed file: missing, or the matching words and the word count |
| Analyzer.Run | 1.2laba.c:243-401 | exit status 1 with nothing done iff the command line is refused; otherwise status 0 and, per operation, the per-file checksums, the mask reports, the copies made, or the search reports |
| Registry.ValidLogin | 1.1laba.c:37-44 | `valid_login` is true iff every character is a letter or a digit; the empty login is valid |
| Registry.Lookup | 1.1laba.c:73-79 | the first row with the login, and none iff no row has it |
| Registry.LookupUnique | 1.1laba.c:73-79 | with distinct logins the row found is the only row with that login |
| Registry.Registration | 1.1laba.c:46-103 | the table-full refusal happens iff the table has 100 rows; an invalid-login refusal means a non-alphanumeric login, a taken-login refusal means some row has it, a PIN refusal means a PIN outside 0..100000 |
| Registry.RegistrationAccepts | 1.1laba.c:46-103 | registration succeeds iff the table has room, the login is alphanumeric and new, and the PIN is in 0..100000 |
| Registry.RegistrationKeepsDistinct | 1.1laba.c:73-99 | a successful registration keeps the logins distinct and the table within 100 rows |
| Registry.Admits | 1.1laba.c:288-298 | an unlimited user is always admitted, and an admitted limited user's count after this command is still within the limit |
| Registry.AdmittedRun | 1.1laba.c:288-298 | of a run of commands by one user, the gate admits no more than were attempted, and admits at least one iff there was an attempt and the user was admitted at the start |
| Registry.LimitedRun | 1.1laba.c:288-298 | a user with limit L who has made c requests is admitted exactly max(0, L - c) more times, however often they try |
| Registry.UnlimitedRun | 1.1laba.c:288-298 | a user without a limit is never refused |
| Registry.HowmuchDate | 1.1laba.c:194-201 | a date is accepted iff the day is in 1..31, the month in 1..12 and the year at least 1900; an accepted date fills `tm` with the month from 0 and the year from 1900 |
| Registry.Current.constructor | 1.1laba.c:334 | the registry starts empty with nobody logged in |
| Registry.Current.IndexOf | 1.1laba.c:73-79 | the search loop over the table finds the row `Lookup` names |
| Registry.Current.Register | 1.1laba.c:46-103 | the outcome follows the source's checks in order; on success exactly one row is appended, with limit -1 and count 0; otherwise the table is unchanged |
| Registry.Current.Authorize | 1.1laba.c:105-146 | an unknown login or a wrong PIN changes nothing; the right PIN makes that user current |
| Registry.Current.Logout | 1.1laba.c:148-151 | nobody is logged in afterwards |
| Registry.Current.SetSanctions | 1.1laba.c:230-267 | a negative number, a wrong confirmation or an unknown login changes nothing; otherwise exactly that user's limit becomes the number |
| Registry.Current.Gate | 1.1laba.c:279-298 | with nobody logged in the command is refused; a user below the limit (or unlimited) is admitted and their count goes up by one; a user at the limit is logged out and nothing else changes; an admitted limited user's count never exceeds the limit |

## Left out

- Messages and their wording: every `printf`/`fprintf` is reduced to a result value (`Report`, `FindReport`, the outcome datatypes).
- Endianness: `fread(&value, 4, 1, …)` reads a word in host byte order. The model fixes little-endian order.
- Files that exist but cannot be opened: a path that passes `file_exists` (`stat`) is always readable. `fopen` failing after a successful `stat` is not modelled.
- The read/write loop of `copy_file`: it is modelled as a whole-file copy. Short writes and write errors are not modelled.
- WorkerPool.CopyJobs, Analyzer.Run: whether each listed file exists is checked against the file system before any copy child runs. In the source the parent calls `file_exists` (1.2laba.c:327) while children forked for earlier files are already creating `<src>_k` (1.2laba.c:130), so with `prog a a_1 copy1` and only `a` present it may also copy the freshly created `a_1` to `a_1_1`. The model never copies a name that an earlier child created.
- XorChecksum.XorBlocks, Search.SearchFile: allocation never fails in the model. When `malloc` or `calloc` fails, `xor_operation` reports a memory error and skips the file (1.2laba.c:61-74); the model always yields a digest for an existing file. `find_in_file` does not check its `malloc` (1.2laba.c:174), and a failure there is not modelled either.
- Concurrency of the children: copy children run one after another in fork order (`ApplyCopies`). Races between concurrent copies are not modelled.
- WorkerPool.CopyPool: a file listed twice (`a a copy1`) is copied twice onto the same names. In the model the two jobs are identical and run one after the other, so the result is the source's bytes (`StartedCopiesResult`); two children writing one file at the same time are not modelled.
- WorkerPool.ApplyCopiesResult: requires independent jobs. Listing both `a` and `a_1` makes one job's source another job's destination, and then the result depends on scheduling.
- The spin when `waitpid` fails (1.2laba.c:375-379, 395-399): every wait reaps a child.
- What a child does after `fork`, beyond its result: `exit(0)` and the parent's `pid_t` values.
- The copy name's `PATH_MAX` truncation in `snprintf`: names are never truncated.
- The `getcwd` path in the "found" message of `find_in_file`: the report names the path as given.
- Search.SearchFile: requires the un-escaped pattern to be at most 1024 bytes. The model does not capture the 1025-byte miss: for a pattern of exactly 1025 bytes the first read asks for `sizeof(buffer) - overlap` = 0 bytes, the loop at 1.2laba.c:201 never runs, and the source reports "not found" even when the file contains the pattern. For a longer pattern that count wraps around, and `fread` overflows the buffer when the file has more than 1024 bytes.
- Analyzer.Run: requires the find pattern to be at most 1024 bytes after un-escaping, as Search.SearchFile does, so the 1025-byte miss and the overflow are not modelled here either; it also requires characters below 256, since C arguments are bytes.
- WorkerPool.FindPool: `reports` lists the children's results in fork order. The children print in the order they finish (1.2laba.c:381-384), and that output order is not modelled.
- Numbers.Atoi: the value is unbounded. `atoi` on a digit string beyond `int` range is undefined behaviour in C.
- The `else` branch at 1.2laba.c:270-272 reads `last_file_index` uninitialised. The model refuses such a command line as `UndefinedFileRange`.
- Registry.Current.Register: requires a login of one to six characters. That is all `scanf("%6s")` can deliver; it never yields an empty word.
- Registry.Current.SetSanctions: the confirmation is the at most five characters `scanf("%5s")` keeps, so a typed 123456 confirms.
- MaskMatch.MaskScan, XorChecksum.XorNibbles, Registry.Current.Gate: the C `int` counters (`matches` and `total` at 1.2laba.c:108-109, `nibble_count` at 1.2laba.c:40, `request_count` at 1.1laba.c:298) are unbounded in the model. Signed overflow past 2^31 - 1 (a file of 2^31 words, a file of 2^30 bytes, an unlimited user's 2^31st command) is not modelled.
- Input errors of `scanf`/`fgets` and the `getchar` drain loops. The values read are parameters.
- The `pthread` mutex, the thread per command, `strdup`/`malloc` failures and the `Thread_args` record: commands run one at a time, as `pthread_join` makes them.
- The menu loop of the registry's `main` and the parsing of command lines (`Time`, `Date`, `Howmuch`, `Logout`, `Sanctions` with `sscanf`): `Gate`, `Logout`, `SetSanctions` and `HowmuchDate` are the operations those commands reach.
- `get_time`, `get_date` and the part of `howmuch` after the date check: they depend on the clock, `mktime` and floating point.
- `1.7laba.c` is not part of this model.
