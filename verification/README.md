# pidmap in Dafny

A model of `pidmap.c`, a small Linux tool. Given the inode number of a PID
namespace, it lists the processes in /proc that belong to that namespace. For
each one it prints the directory name. It then reads the process's `status`
file and prints the PID that process has inside its innermost namespace: the
last number on the `NSpid:` line.

The model has five modules:

- `CTypes` (`ctypes.dfy`) holds the C-level facts the code relies on:
  - `ULLONG_MAX` and `ENOENT`;
  - the 32-bit `pid_t` and the cast to it, which reduces modulo 2^32;
  - the `(long unsigned)` cast used when printing;
  - the view of a buffer as a NUL-terminated string.
- `Strtoull` (`strtoull.dfy`) is the conversion `strtoull` and
  `g_ascii_strtoull` perform, as section 7.22.1.4 of the C11 standard
  specifies it:
  - leading white space, then an optional sign;
  - base 0 detects hexadecimal and octal from the prefix;
  - a value beyond 64 bits is an overflow;
  - a minus sign negates modulo 2^64.

  Its partner is `DecimalString`, the decimal numeral of a number, which it
  reads back.
- `Stdio` (`stdio.dfy`) is `getdelim`: it reads one token up to and
  including a delimiter.
- `StatusParser` (`status_parser.dfy`) covers `parse_pid` and `map_pid`.
  `StatusLine`, `Render` and `NSpidValue` describe status files as the kernel
  writes them, so the parser can be proved against them.
- `Pidmap` (`pidmap.dfy`) covers `main`: the argument check and the walk over
  /proc. The file system is a sequence of entries in `readdir` order. Each
  entry carries three things:
  - its name;
  - the inode number `fstatat` reports for `<name>/ns/pid`, or none when that
    fails;
  - the text of `<name>/status`, or none when `openat` fails.

`examples.dfy` holds worked examples.

Several details of `map_pid` are modelled exactly as the code has them:

- The flag `p` is initialised to 0 and never assigned, so the do-while loop
  does not stop after a successful parse.
- The loop reads to the end of the stream, or stops at the first "NSpid" value
  that does not parse.
- The function always returns `-ENOENT`. `*out` ends as the value of the last
  "NSpid" line parsed before such a failure.
- `main` ignores that return value. It prints `mapped`, which starts at 0 for
  each process.

`MapPid` is the statement-by-statement transcription. `MapLoop` is the
functional fold it is proved equal to.

Some things `pidmap.c` does not do, and the model does not either:

- It reads only the `NSpid` line of a status file; other keys, such as `Uid`,
  are read and skipped.
- It reports no per-process failure. A process whose `status` cannot be
  opened is printed without a PID line, and a failed parse prints `mapped`
  as it stands.
- It does not filter PIDs: every process in the namespace is printed.
- It strips no white space from values, beyond what `strtoull` skips before
  the number.

## Model

| member | source | states |
|---|---|---|
| `CTypes.ToPidT` | pidmap.c:33 | the cast `(pid_t) p` yields the 32-bit value congruent to `p` modulo 2^32, equal to `p` when `p` fits |
| `CTypes.ToULong` | pidmap.c:131 | the cast `(long unsigned) mapped` yields the 64-bit value congruent to `mapped` modulo 2^64, equal to it when non-negative |
| `CTypes.CString` | pidmap.c:66-67 | a C function sees the buffer up to its first NUL: a NUL-free prefix that ends at a NUL or at the end of the buffer |
| `CTypes.CStringOfPlainText` | pidmap.c:66-67 | a buffer without NUL is seen whole |
| `Strtoull.StrToULL` | pidmap.c:28 | the conversion ends inside the string on a valid digit; no conversion means value 0 and no error; an overflow gives `ULLONG_MAX` with `ERANGE` |
| `Strtoull.Accumulate` | pidmap.c:28 | the digit value `m` becomes `ULLONG_MAX` with `ERANGE` exactly when it exceeds 64 bits; otherwise it is `m`, or with a minus sign its negation modulo 2^64 |
| `Strtoull.StrToULLOfHex` | pidmap.c:28 | in base 0, white space, a sign, "0x" or "0X" and hexadecimal digits convert the digits in base 16, ending at the first character that is no hexadecimal digit (such as the 'g' of "0x1fg") |
| `Strtoull.StrToULLOfOctal` | pidmap.c:28 | in base 0, white space, a sign, a leading '0' and octal digits convert the digits in base 8, ending at the first character that is no octal digit (such as the '8' of "0178"); "0" alone is 0, also before an 'x' that no hexadecimal digit follows |
| `Strtoull.StrToULLOfDecimal` | pidmap.c:28 | white space, a sign and decimal digits (not led by '0' in base 0) convert in base 10, negated modulo 2^64 after '-', ending at the first character that is no decimal digit (such as the 'a' of "42a") |
| `Strtoull.StrToULLOfNoDigits` | pidmap.c:28-29 | with no digit of the base after the white space and sign, nothing is converted: `end` equals the start, value 0, no error |
| `Strtoull.DecimalStringValue` | pidmap.c:96 | the decimal numeral of `n` has digit value `n` (the inverse of the conversion's digit fold) |
| `Strtoull.StrToULLStopsAtTerminator` | pidmap.c:28 | once the character right after the converted digits is neither a letter nor a digit (such as the newline after a PID), text after it does not change the conversion |
| `Strtoull.StrToULLOfNumeral` | pidmap.c:96 | white space followed by a decimal numeral converts to its value in base 0 and base 10, or to `ULLONG_MAX` with `ERANGE` when it exceeds 64 bits |
| `Stdio.GetDelim` | pidmap.c:56 | `getdelim` fails exactly at end of stream; otherwise the token and the rest make up the stream, and the token runs up to and including the first delimiter, or to the end |
| `Stdio.GetDelimReadsToken` | pidmap.c:56-61 | a token written with its delimiter is read back whole, and the stream resumes right after it |
| `Stdio.GetDelimReadsAll` | pidmap.c:56-61 | text without the delimiter is read whole as the last token, leaving the stream empty |
| `StatusParser.LastTab` | pidmap.c:23-25 | `strrchr(val, '\t')`: no tab means none; otherwise it finds the position of a tab with no tab after it |
| `StatusParser.NumberAt` | pidmap.c:28-30 | a conversion is accepted only when the text holds a digit |
| `StatusParser.NumberAfterLastTab` | pidmap.c:23-30 | a value without a tab has no number; a number is found only when a digit follows the last tab |
| `StatusParser.Store` | pidmap.c:32-33 | `if (pid) *pid = ...`: a NULL pointer stays NULL and stores nothing; otherwise it points to the new value |
| `StatusParser.ParsePid` | pidmap.c:14-36 | the result is 0 or `-ENOENT`; on `-ENOENT` `*pid` is untouched; a NULL `pid` stays NULL; a value without a tab is rejected; success needs a digit after the last tab |
| `StatusParser.ParsePidNoDigits` | pidmap.c:23-30 | a value whose last tab is followed by no sign, white space or digit is rejected with `-ENOENT` and `*pid` kept |
| `StatusParser.LastTabBetween` | pidmap.c:23 | the last tab of `a + "\t" + c` is the one between them when `c` has none |
| `StatusParser.ParsePidReadsAfterLastTab` | pidmap.c:23-30 | what precedes the last tab does not affect `parse_pid` |
| `StatusParser.ParsePidOfNumeral` | pidmap.c:27-35 | a tab, a decimal numeral and a newline store the number cast to `pid_t`, or are rejected beyond 64 bits |
| `StatusParser.ParsePidOfNSpidValue` | pidmap.c:14-36 | an "NSpid" value as the kernel writes it yields its last PID, the one in the innermost namespace |
| `StatusParser.ParsePidOverwrites` | pidmap.c:32-33 | the outcome does not depend on the previous `*pid`, and on success the old value is overwritten |
| `StatusParser.IsNSpidKey` | pidmap.c:66 | `strncmp(key, "NSpid", 5) == 0`: the key, as a C string, has at least five characters and begins with "NSpid" |
| `StatusParser.NSpidKeyWithColon` | pidmap.c:66 | the key token read with its `:` matches "NSpid" exactly when the bare key begins with "NSpid" |
| `StatusParser.MapLoop` | pidmap.c:55-69 | the loop ends with `r` equal to 0 or `-ENOENT`, and a NULL `out` stays NULL |
| `StatusParser.MapPid` | pidmap.c:38-79 | `map_pid` always returns `-ENOENT` (the flag `p` is never set), and leaves in `*out` what the fold `MapLoop` leaves |
| `StatusParser.MapLoopReadsLine` | pidmap.c:56-69 | one "key:value" line is one loop iteration |
| `StatusParser.MapLoopAppend` | pidmap.c:55-69 | reading lines and then more text is reading the lines, and then the text from the state they leave, unless a parse failed |
| `StatusParser.MapLoopSkipsOtherKeys` | pidmap.c:66-67 | lines whose keys do not begin with "NSpid" change nothing |
| `StatusParser.MapLoopStopsAtBadValue` | pidmap.c:67-69 | an "NSpid" value that does not parse ends the loop with `-ENOENT`, and `*out` keeps its old value |
| `StatusParser.MapLoopLastValueWins` | pidmap.c:55-69 | with several "NSpid" lines, the last one parsed determines `*out` |
| `StatusParser.MapLoopReadsNSpidLine` | pidmap.c:56-67 | an "NSpid" line as the kernel writes it stores its last PID and the loop goes on |
| `StatusParser.MapLoopOfStatus` | pidmap.c:55-69 | in a status file with one "NSpid" line among other keys, `*out` ends as the innermost PID (unchanged, with `-ENOENT`, when it exceeds 64 bits) |
| `StatusParser.MapLoopOtherKeysOnly` | pidmap.c:55-69 | a status file without "NSpid" lines leaves `*out` alone and ends without error |
| `StatusParser.FirstLine` | pidmap.c:56-64 | the two `getdelim` calls either take one complete "key:value\n" line, with the key free of ':' and the value free of newlines, or find a text in which no line is complete |
| `StatusParser.SplitLines` | pidmap.c:55-64 | every text is a sequence of complete well-formed lines followed by a tail: text without ':', or one key, ':' and a value no newline ends |
| `StatusParser.MapLoopReadsKeyless` | pidmap.c:56-64 | a tail without ':' ends the loop with `r` and `*out` unchanged: the second `getdelim` finds the stream empty |
| `StatusParser.MapLoopReadsLastPair` | pidmap.c:56-69 | a last pair without a newline is still read, and an "NSpid" key has its value parsed; an empty value is not parsed |
| `StatusParser.MapLoopOfText` | pidmap.c:55-69 | any text is read as the fold over its complete lines, then its tail from the state they leave unless a parse failed |
| `Pidmap.ParseTarget` | pidmap.c:89-103 | with fewer than two arguments there is no target; an accepted target argument contains a decimal digit |
| `Pidmap.ParseTargetOfNumeral` | pidmap.c:95-103 | the decimal numeral of a 64-bit number as first argument is read back as that number; a larger one is refused |
| `Pidmap.MappedPid` | pidmap.c:130-131 | `mapped` printed as `%lu` is a 32-bit `pid_t` widened to 64 bits: below 2^31, or within 2^31 of 2^64 when negative |
| `Pidmap.ReportOf` | pidmap.c:123-131 | a matching entry prints its name, and a mapped PID exactly when its status file opened |
| `Pidmap.Scan` | pidmap.c:107-132 | no more reports than entries |
| `Pidmap.RunMain` | pidmap.c:81-137 | `main` returns -1 exactly when the argument is missing or does not parse, with nothing printed; otherwise 0 and the reports of `Scan` |
| `Pidmap.ScanAppend` | pidmap.c:107-132 | the walk keeps directory order: two runs of entries report in sequence |
| `Pidmap.ScanReports` | pidmap.c:116-123 | a report is printed if and only if some entry whose `ns/pid` inode equals the target yields it |
| `Pidmap.ScanSkipsOtherNamespaces` | pidmap.c:116-121 | entries outside the namespace, or whose `fstatat` fails, print nothing |
| `Pidmap.ReportOfStatus` | pidmap.c:111-131 | a process in the namespace prints its innermost PID as unsigned long, or 0 when that PID exceeds 64 bits |
| `Examples.StrToULLDecimalExample` | pidmap.c:28 | "\t42\n" converts to 42, ending before the newline |
| `Examples.StrToULLHexExample` | pidmap.c:28 | "\t0x1f" converts to 31 in base 0 |
| `Examples.StrToULLOctalExample` | pidmap.c:28 | "\t017" converts to 15 in base 0 |
| `Examples.StrToULLNegativeExample` | pidmap.c:28 | "\t-1\n" converts to 2^64 - 1 without error |
| `Examples.StrToULLStopsAtLetterExample` | pidmap.c:28 | "\t42a" converts to 42, ending at the 'a' |
| `Examples.StrToULLStopsAtEightExample` | pidmap.c:28 | "\t0178" converts to octal 15, ending at the '8' |
| `Examples.StrToULLStopsAtGExample` | pidmap.c:28 | "\t0x1fg" converts to 31, ending at the 'g' |
| `Examples.StrToULLBareZeroExample` | pidmap.c:28 | "\t0xg" converts to 0, ending at the 'x' |
| `Examples.StrToULLOneDigitExample` | pidmap.c:28 | "\t5" converts to 5, ending at the end of the text |
| `Examples.ParsePidNestedExample` | pidmap.c:14-36 | "\t1\t2\t42\n" yields 42 |
| `Examples.ParsePidHexExample` | pidmap.c:28 | "\t0x1f" yields 31 (base 0 detects hexadecimal) |
| `Examples.ParsePidOctalExample` | pidmap.c:28 | "\t017" yields 15 (base 0 detects octal) |
| `Examples.ParsePidNegativeExample` | pidmap.c:28-33 | "\t-1\n" converts to 2^64 - 1 and is stored as `pid_t` -1 |
| `Examples.ParsePidNonNumericExample` | pidmap.c:29-30 | "\tn/a\n" is rejected and `*pid` keeps 7 |
| `Examples.ParsePidUnterminatedExample` | pidmap.c:14-36 | "\t5", a value without a newline, yields 5 |
| `Examples.MapLoopLastPairExample` | pidmap.c:55-69 | a status text "NSpid:\t5" without a final newline leaves 5 in `*out` |
| `Examples.ParseTargetRejectionExamples` | pidmap.c:89-103 | a missing argument and one without digits are refused |
| `Examples.ParseTargetExample` | pidmap.c:95-96 | "17" is read as namespace 17 |
| `Examples.ScanExampleReport` | pidmap.c:123-131 | a process in namespace 9 whose status has "NSpid:\t7\t3" and a "Uid" line prints 3 |
| `Examples.ScanExample` | pidmap.c:107-132 | with processes in namespaces 5 and 9, a non-process entry (`cpuinfo`, where `fstatat` fails), and an unreadable process in 9, scanning namespace 9 prints "7" with PID 3, then "9" without a PID |

## Left out

- `pidfd.c` and its pidfd-based lookup are not part of this model.
- The `fdopen` failure in `map_pid` (`return -errno`) is not modelled: the
  status stream is given as text once it is open.
- The real I/O is not modelled; each of these becomes a parameter:
  - `opendir` on /proc, whose result `pidmap.c` never checks, and `closedir`;
  - `readdir` order;
  - `fstatat`, `openat` and `fclose`.
- Output formatting is not modelled; a `Report` stands for what is printed:
  - `g_print` formatting, including `"%s in %ld"`, which prints the target as a
    signed long;
  - the usage and error messages;
  - the `g_debug` trace.
- The `snprintf` into a `PATH_MAX` buffer is not modelled: directory names
  under /proc are short, so truncation is not modelled.
- `ToULong`: `(long unsigned)` is modelled as 64 bits wide, as on LP64
  platforms such as x86-64 Linux; where `long` has 32 bits the printed value
  would be reduced modulo 2^32 instead. Likewise `ino_t` (`Entry.nsIno`,
  `ParseTarget`) is taken as 64 bits; on 32-bit Linux built without
  `_FILE_OFFSET_BITS=64` the cast `(ino_t) strtoull(...)` would reduce the
  namespace argument modulo 2^32.
- `StrToULL`: the `0b`/`0B` binary prefix that C23 adds to base 0 (and that
  glibc 2.38 and later accept in some build modes) is not modelled; base 0
  reads "0b1" as 0, ending before the 'b'.
- `errno` is not modelled as global state: only the `ERANGE` outcome of the
  conversion is kept, as a flag.
- `ParseTarget`: the model does not describe the `end` pointer beyond its
  distance from the start of the argument.
- `Scan`: its own contract gives only the length bound. Which reports it
  contains and in what order is stated by `ScanReports` and `ScanAppend`.
- `MapLoop` on arbitrary text has no closed form. `SplitLines` splits any text
  into complete lines and a tail, and `MapLoopOfText` reads it as the two in
  turn. The lines are described by the general lemmas (`MapLoopReadsLine`,
  `MapLoopAppend`, `MapLoopStopsAtBadValue`, `MapLoopLastValueWins`). The tail
  is described by `MapLoopReadsKeyless` and `MapLoopReadsLastPair`. Only
  `NSpidValue` and `Render` build well-formed kernel text.
