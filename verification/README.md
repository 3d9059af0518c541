# Line-ending checker, modelled in Dafny

The modelled program is one routine, `check_line_endings`. It walks a directory tree and opens every file in binary mode. It records the path of each file whose raw bytes contain a carriage return (0x0D) immediately followed by a line feed (0x0A). When a file cannot be read, it prints `Error reading file <path>: <message>` and moves on to the next file. At the end it prints either the header `Files with Windows-style line endings (CRLF):` followed by one recorded path per line, or the single line `No files with Windows-style line endings found.`

`line_endings.dfy` (module `LineEndings`) models this:

- The directory walk is the sequence of `Entry` values it yields, in visit order. Each entry holds the already-joined path and a `ReadResult`: either `Bytes(content)` (a `seq<bv8>`) or `ReadError(message)`.
- Console output is a sequence of print arguments, one element per `print` call, and every call is taken to succeed. The diagnostics come first, in the order the walk meets the unreadable files, since the routine prints them during the walk. The report lines follow.
- The bytes test `b'\r\n' in content` is the predicate `ContainsCRLF`: some index `i` has `s[i] == 0x0D` and `s[i+1] == 0x0A`. It is proved equal to the substring reading `ContainsSlice` (the content splits as prefix, `\r\n`, suffix). The loop `FindCRLF` is proved to agree with it.
- The routine is the method `CheckLineEndings`. Like the source, it loops over the walk, appends to a findings list and to the output, then runs the report loop (`PrintReport`). It is proved to return exactly `Findings(entries)` and `ScanOutput(entries)`. The properties of those functions are proved as lemmas.

## Model

| member | source | states |
|---|---|---|
| LineEndings.FindCRLF | check_line_endings.py:17 | the search loop returns true exactly when the content holds a 0x0D byte immediately followed by a 0x0A byte |
| LineEndings.ContainsCRLFIsSliceTest | check_line_endings.py:17 | the position-wise CR-LF test is equivalent to the bytes-in-bytes test: the content splits as prefix, `\r\n`, suffix |
| LineEndings.ContainsCRLFConcat | check_line_endings.py:14-17 | the content is tested whole, and a concatenation holds a CR-LF pair iff one part does, or the left part ends in CR and the right part starts with LF |
| LineEndings.NeedsBothBytes | check_line_endings.py:17 | content with no CR, or with no LF, is never flagged |
| LineEndings.OnlyAdjacentPairCounts | check_line_endings.py:17 | a lone CR, a lone LF, LF then CR, and CR and LF with another byte between are not flagged; CR then LF is flagged |
| LineEndings.BinaryContentScenario | check_line_endings.py:13-18 | undecoded non-text bytes `00 0D 0A FF` get the path `sub/c.bin` recorded |
| LineEndings.MixedTreeScenario | check_line_endings.py:13-18 | for `a.txt` = `line1\r\nline2` and `b.txt` = `line1\nline2`, the findings are exactly `[a.txt]` and the output is the header followed by `a.txt` |
| LineEndings.Findings | check_line_endings.py:5-18 | at most one recorded path per visited entry |
| LineEndings.ErrorLines | check_line_endings.py:19-20 | at most one diagnostic per visited entry |
| LineEndings.CheckLineEndings | check_line_endings.py:3-28 | the routine's loops return exactly the findings `Findings(entries)` and print exactly `ErrorLines(entries)` followed by `Report(Findings(entries))` |
| LineEndings.PrintReport | check_line_endings.py:23-28 | the report loop makes exactly the print calls `Report(findings)` |
| LineEndings.Report | check_line_endings.py:23-28 | with findings: the header as the first print argument, then finding k as argument k+1, one call each, in order; with none: exactly the single "none found" argument |
| LineEndings.ReportRoundTrip | check_line_endings.py:23-28 | the report's print arguments lose nothing: parsing them back gives the findings they were made from |
| LineEndings.RescanIsIdentical | check_line_endings.py:5-28 | scanning the same walk twice gives identical findings and identical output |
| LineEndings.FindingsAppend | check_line_endings.py:8-10 | findings preserve visit order: the findings of a walk are those of its first part followed by those of the rest |
| LineEndings.ErrorLinesAppend | check_line_endings.py:8-11 | diagnostics preserve visit order in the same way |
| LineEndings.EntryAt | check_line_endings.py:8-20 | at any position in the walk, an entry adds its path to the findings exactly when it was read and holds a CR-LF pair, a readable entry adds no diagnostic, and the entries around it are unaffected |
| LineEndings.FindingsMembership | check_line_endings.py:8-18 | a path is recorded iff some visited entry with that path was read successfully and its bytes hold a CR-LF pair (both directions) |
| LineEndings.FindingsNoDuplicates | check_line_endings.py:17-18 | when visited paths are distinct, the findings list has no duplicates |
| LineEndings.OneLinePerEntryAtMost | check_line_endings.py:11-20 | each entry yields at most one finding or diagnostic: findings plus diagnostics number at most the entries |
| LineEndings.UnreadableFileSkipped | check_line_endings.py:11-20 | an unreadable file is not recorded, produces exactly its one `Error reading file <path>: <message>` print argument in its place, and the files after it are still scanned |
| LineEndings.AllUnreadable | check_line_endings.py:11-28 | if every file is unreadable (including an empty tree), there are no findings, one diagnostic per file, and the report is the single "none found" line |

## Left out

- The directory traversal (`os.walk`, `os.path.join`, lines 8-10) is filesystem I/O. The model takes the walk's output as an input sequence of entries with joined paths, in the order the walk yields them.
- Opening and reading files (lines 13-14) and the Python exception types (line 19) are foreign I/O. Each read is a given `ReadResult`, and the exception's text is a given message string.
- Printing to the console is a side effect. The model returns the sequence of print arguments instead. Each element is the argument of one `print` call, and every call is assumed to succeed. So a path that contains a newline prints as several text lines, though the model counts it as one element. A `print` that raises, such as a `UnicodeEncodeError` for a path stdout cannot encode, aborts the real run; the model always completes. This applies to the diagnostic at line 20 and to the report at lines 24-28.
- Every read is assumed to end, with exactly one outcome: the bytes or an exception. Opening a named pipe (line 13) can block forever, and the model does not capture that hang. An exception raised when the `with` block closes the file, after the append at line 18, makes the source both record and diagnose that file. The model cannot express that case.
- OneLinePerEntryAtMost: states the model's one-outcome-per-entry rule, not a guarantee of the source, because a file whose close raises is both recorded and diagnosed there.
- UnreadableFileSkipped: "the files after it are still scanned" holds only when printing the diagnostic succeeds; a `print` that raises at line 20 ends the real run.
- The `__main__` block (lines 31-34) is entry-point configuration with a hard-coded path. It holds no logic.
- The walk's own failure (a root that does not exist) is not modelled. `os.walk` reports nothing in that case, so the routine then sees an empty walk. `AllUnreadable` covers that case.
