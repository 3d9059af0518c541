/**
 * A model of the line-ending checker: walk a directory tree, read every file
 * as raw bytes, record the path of each file whose bytes contain a carriage
 * return immediately followed by a line feed, report a read failure for a
 * file and carry on, and finally print either a header followed by the
 * recorded paths or a single "none found" line.
 *
 * The directory walk is abstracted as the sequence of entries it yields, in
 * order; each entry carries the already-joined path and the outcome of
 * reading the file. Console output is the sequence of lines printed.
 */
module LineEndings {

  /** A raw byte of file content. */
  type byte = bv8

  /** Carriage return, `\r`. */
  const CR: byte := 0x0D
  /** Line feed, `\n`. */
  const LF: byte := 0x0A

  /** The line printed before the recorded paths. */
  const Header: string := "Files with Windows-style line endings (CRLF):"
  /** The single line printed when nothing was recorded. */
  const NoneFound: string := "No files with Windows-style line endings found."

  /** The outcome of opening and reading one file: its whole content, or the
      text of the exception that was raised. */
  datatype ReadResult = Bytes(content: seq<byte>) | ReadError(message: string)

  /** One file yielded by the directory walk. */
  datatype Entry = Entry(path: string, read: ReadResult)

  datatype Option<T> = None | Some(value: T)

  // ---------------------------------------------------------------------
  // The byte test
  // ---------------------------------------------------------------------

  /** There is a position holding CR whose successor holds LF. */
  predicate ContainsCRLF(s: seq<byte>)
  {
    exists i :: 0 <= i < |s| - 1 && s[i] == CR && s[i + 1] == LF
  }

  /** The two-byte string `\r\n` occurs in `s`: `s` splits into some
      prefix, the pair, and some suffix. This is the meaning of a
      bytes-in-bytes membership test. */
  ghost predicate ContainsSlice(s: seq<byte>)
  {
    exists pre, post :: s == pre + [CR, LF] + post
  }

  /** The position-wise predicate and the slice test agree on every input. */
  lemma ContainsCRLFIsSliceTest(s: seq<byte>)
    ensures ContainsCRLF(s) <==> ContainsSlice(s)
  {
    if ContainsCRLF(s) {
      var i :| 0 <= i < |s| - 1 && s[i] == CR && s[i + 1] == LF;
      assert s == s[..i] + [CR, LF] + s[i + 2..];
    }
    if ContainsSlice(s) {
      var pre, post :| s == pre + [CR, LF] + post;
      assert s[|pre|] == CR && s[|pre| + 1] == LF;
    }
  }

  /** Scans the bytes from the front and stops at the first CR-LF pair. */
  method FindCRLF(s: seq<byte>) returns (found: bool)
    ensures found <==> ContainsCRLF(s)
  {
    var i := 0;
    while i + 1 < |s|
      invariant 0 <= i <= |s|
      invariant forall j :: 0 <= j < i && j + 1 < |s| ==> !(s[j] == CR && s[j + 1] == LF)
    {
      if s[i] == CR && s[i + 1] == LF {
        return true;
      }
      i := i + 1;
    }
    return false;
  }

  /** A pair can only straddle a split point as a CR at the end of the left
      part and an LF at the start of the right part. Because the whole file
      is read at once and tested as one sequence, such a straddling pair is
      found; this lemma names exactly the pairs a search run separately over
      two consecutive chunks of the content would miss. */
  lemma ContainsCRLFConcat(a: seq<byte>, b: seq<byte>)
    ensures ContainsCRLF(a + b) <==>
      ContainsCRLF(a) || ContainsCRLF(b) || (|a| > 0 && |b| > 0 && a[|a| - 1] == CR && b[0] == LF)
  {
    var ab := a + b;
    if ContainsCRLF(ab) {
      var i :| 0 <= i < |ab| - 1 && ab[i] == CR && ab[i + 1] == LF;
      if i + 1 < |a| {
        assert a[i] == CR && a[i + 1] == LF;
      } else if i >= |a| {
        assert b[i - |a|] == CR && b[i - |a| + 1] == LF;
      } else {
        assert a[|a| - 1] == CR && b[0] == LF;
      }
    }
    if ContainsCRLF(a) {
      var i :| 0 <= i < |a| - 1 && a[i] == CR && a[i + 1] == LF;
      assert ab[i] == CR && ab[i + 1] == LF;
    }
    if ContainsCRLF(b) {
      var i :| 0 <= i < |b| - 1 && b[i] == CR && b[i + 1] == LF;
      assert ab[|a| + i] == CR && ab[|a| + i + 1] == LF;
    }
    if |a| > 0 && |b| > 0 && a[|a| - 1] == CR && b[0] == LF {
      assert ab[|a| - 1] == CR && ab[|a|] == LF;
    }
  }

  /** Both bytes of the pair are needed: content without any CR, or without
      any LF, is never flagged. */
  lemma NeedsBothBytes(s: seq<byte>)
    ensures CR !in s ==> !ContainsCRLF(s)
    ensures LF !in s ==> !ContainsCRLF(s)
  {
  }

  /** Only the adjacent CR-then-LF pair counts: a lone CR, a lone LF, LF
      followed by CR, and CR and LF with another byte between them are not
      flagged; CR followed by LF is. */
  lemma OnlyAdjacentPairCounts(x: byte)
    requires x != CR && x != LF
    ensures !ContainsCRLF([CR]) && !ContainsCRLF([LF]) && !ContainsCRLF([LF, CR])
    ensures !ContainsCRLF([CR, x, LF])
    ensures ContainsCRLF([CR, LF])
  {
    assert [CR, LF][0] == CR && [CR, LF][1] == LF;
    var t := [CR, x, LF];
    forall i | 0 <= i < |t| - 1 ensures !(t[i] == CR && t[i + 1] == LF) {
      assert t[1] == x;
    }
  }

  // ---------------------------------------------------------------------
  // The scan
  // ---------------------------------------------------------------------

  /** A file is recorded when it was read and its bytes hold a CR-LF pair. */
  predicate Flagged(e: Entry)
  {
    e.read.Bytes? && ContainsCRLF(e.read.content)
  }

  /** The paths recorded for `entries`, in visit order. */
  function Findings(entries: seq<Entry>): (r: seq<string>)
    ensures |r| <= |entries|
  {
    if entries == [] then []
    else
      var last := entries[|entries| - 1];
      Findings(entries[..|entries| - 1]) + (if Flagged(last) then [last.path] else [])
  }

  /** The diagnostic printed for a file that could not be read. */
  function ErrorLine(path: string, message: string): string
  {
    "Error reading file " + path + ": " + message
  }

  /** The diagnostics printed during the walk, one per unreadable file, in
      visit order. */
  function ErrorLines(entries: seq<Entry>): (r: seq<string>)
    ensures |r| <= |entries|
  {
    if entries == [] then []
    else
      var last := entries[|entries| - 1];
      ErrorLines(entries[..|entries| - 1])
        + (match last.read
           case ReadError(message) => [ErrorLine(last.path, message)]
           case Bytes(_) => [])
  }

  /** The lines printed after the walk. */
  function Report(findings: seq<string>): (lines: seq<string>)
    ensures findings != [] ==>
      |lines| == |findings| + 1 && lines[0] == Header &&
      forall k :: 0 <= k < |findings| ==> lines[k + 1] == findings[k]
    ensures findings == [] ==> lines == [NoneFound]
  {
    if findings != [] then [Header] + findings else [NoneFound]
  }

  /** Everything the routine prints for `entries`: the diagnostics as the
      walk meets them, then the report. */
  function ScanOutput(entries: seq<Entry>): seq<string>
  {
    ErrorLines(entries) + Report(Findings(entries))
  }

  /** The routine itself: one pass over the walk that collects the findings
      and prints the diagnostics, then the report loop. */
  method CheckLineEndings(entries: seq<Entry>) returns (findings: seq<string>, output: seq<string>)
    ensures findings == Findings(entries)
    ensures output == ScanOutput(entries)
  {
    findings := [];
    output := [];
    for i := 0 to |entries|
      invariant findings == Findings(entries[..i])
      invariant output == ErrorLines(entries[..i])
    {
      var e := entries[i];
      assert entries[..i + 1][..i] == entries[..i];
      assert entries[..i + 1][i] == e;
      match e.read {
        case Bytes(content) =>
          var hasCRLF := FindCRLF(content);
          if hasCRLF {
            findings := findings + [e.path];
          }
        case ReadError(message) =>
          output := output + [ErrorLine(e.path, message)];
      }
    }
    assert entries[..|entries|] == entries;
    var report := PrintReport(findings);
    output := output + report;
  }

  /** The report step: the header and one line per finding, in order, or the
      single "none found" line. */
  method PrintReport(findings: seq<string>) returns (lines: seq<string>)
    ensures lines == Report(findings)
  {
    if findings != [] {
      lines := [Header];
      for k := 0 to |findings|
        invariant lines == [Header] + findings[..k]
      {
        assert findings[..k + 1] == findings[..k] + [findings[k]];
        lines := lines + [findings[k]];
      }
      assert findings[..|findings|] == findings;
    } else {
      lines := [NoneFound];
    }
  }

  /** The routine is a function of the walk: scanning the same entries twice
      yields the same findings and prints the same lines. */
  method RescanIsIdentical(entries: seq<Entry>)
    returns (first: seq<string>, second: seq<string>, firstOutput: seq<string>, secondOutput: seq<string>)
    ensures first == second && firstOutput == secondOutput
  {
    first, firstOutput := CheckLineEndings(entries);
    second, secondOutput := CheckLineEndings(entries);
  }

  // ---------------------------------------------------------------------
  // Properties of the scan
  // ---------------------------------------------------------------------

  /** Findings are order-preserving: the findings of a walk are those of its
      first part followed by those of the rest. */
  lemma {:induction false} FindingsAppend(a: seq<Entry>, b: seq<Entry>)
    ensures Findings(a + b) == Findings(a) + Findings(b)
  {
    if b == [] {
      assert a + b == a;
    } else {
      var ab := a + b;
      var b' := b[..|b| - 1];
      assert ab[..|ab| - 1] == a + b';
      assert ab[|ab| - 1] == b[|b| - 1];
      FindingsAppend(a, b');
    }
  }

  /** Diagnostics are order-preserving in the same way. */
  lemma {:induction false} ErrorLinesAppend(a: seq<Entry>, b: seq<Entry>)
    ensures ErrorLines(a + b) == ErrorLines(a) + ErrorLines(b)
  {
    if b == [] {
      assert a + b == a;
    } else {
      var ab := a + b;
      var b' := b[..|b| - 1];
      assert ab[..|ab| - 1] == a + b';
      assert ab[|ab| - 1] == b[|b| - 1];
      ErrorLinesAppend(a, b');
    }
  }

  /** A single entry contributes its path exactly when it is flagged. */
  lemma FindingsOfOne(e: Entry)
    ensures Findings([e]) == if Flagged(e) then [e.path] else []
  {
  }

  /** Wherever it stands in the walk, an entry adds its path to the findings
      exactly when it is flagged, and a readable entry adds no diagnostic;
      the entries around it contribute as they would without it. */
  lemma {:induction false} EntryAt(before: seq<Entry>, e: Entry, after: seq<Entry>)
    ensures Findings(before + [e] + after) ==
      Findings(before) + (if Flagged(e) then [e.path] else []) + Findings(after)
    ensures e.read.Bytes? ==> ErrorLines(before + [e] + after) == ErrorLines(before) + ErrorLines(after)
  {
    FindingsAppend(before, [e]);
    FindingsAppend(before + [e], after);
    ErrorLinesAppend(before, [e]);
    ErrorLinesAppend(before + [e], after);
    FindingsOfOne(e);
    assert [e][..0] == [];
  }

  /** A path is recorded exactly when some visited entry with that path was
      read and holds a CR-LF pair. */
  lemma {:induction false} FindingsMembership(entries: seq<Entry>, p: string)
    ensures p in Findings(entries) <==>
      exists i :: 0 <= i < |entries| && entries[i].path == p && Flagged(entries[i])
  {
    if entries != [] {
      var n := |entries| - 1;
      var init := entries[..n];
      FindingsMembership(init, p);
      if exists i :: 0 <= i < |init| && init[i].path == p && Flagged(init[i]) {
        var i :| 0 <= i < |init| && init[i].path == p && Flagged(init[i]);
        assert entries[i] == init[i];
      }
      if exists i :: 0 <= i < |entries| && entries[i].path == p && Flagged(entries[i]) {
        var i :| 0 <= i < |entries| && entries[i].path == p && Flagged(entries[i]);
        if i < n {
          assert init[i] == entries[i];
        }
      }
    }
  }

  /** Paths of distinct visited files are recorded at most once each. */
  lemma {:induction false} FindingsNoDuplicates(entries: seq<Entry>)
    requires forall i, j :: 0 <= i < j < |entries| ==> entries[i].path != entries[j].path
    ensures forall i, j :: 0 <= i < j < |Findings(entries)| ==> Findings(entries)[i] != Findings(entries)[j]
  {
    if entries != [] {
      var n := |entries| - 1;
      var init := entries[..n];
      var last := entries[n];
      FindingsNoDuplicates(init);
      if Flagged(last) {
        var f := Findings(init);
        assert Findings(entries) == f + [last.path];
        assert forall i :: 0 <= i < |init| ==> init[i].path != last.path by {
          forall i | 0 <= i < |init| ensures init[i].path != last.path {
            assert init[i] == entries[i];
          }
        }
        FindingsMembership(init, last.path);
        assert last.path !in f;
      }
    }
  }

  /** In the model each visited entry yields a finding, a diagnostic, or
      nothing, and never more than one line in all. */
  lemma {:induction false} OneLinePerEntryAtMost(entries: seq<Entry>)
    ensures |Findings(entries)| + |ErrorLines(entries)| <= |entries|
  {
    if entries != [] {
      OneLinePerEntryAtMost(entries[..|entries| - 1]);
    }
  }

  /** An unreadable file is not recorded, yields exactly its one diagnostic
      at its place in the walk, and the files after it are still scanned. */
  lemma UnreadableFileSkipped(before: seq<Entry>, e: Entry, after: seq<Entry>)
    requires e.read.ReadError?
    ensures Findings(before + [e] + after) == Findings(before) + Findings(after)
    ensures ErrorLines(before + [e] + after) ==
      ErrorLines(before) + [ErrorLine(e.path, e.read.message)] + ErrorLines(after)
  {
    FindingsAppend(before, [e]);
    FindingsAppend(before + [e], after);
    ErrorLinesAppend(before, [e]);
    ErrorLinesAppend(before + [e], after);
    FindingsOfOne(e);
    assert [e][..0] == [];
  }

  /** When every file is unreadable (in particular when the tree is empty),
      the report is the single "none found" line after one diagnostic per
      file. */
  lemma {:induction false} AllUnreadable(entries: seq<Entry>)
    requires forall i :: 0 <= i < |entries| ==> entries[i].read.ReadError?
    ensures Findings(entries) == []
    ensures |ErrorLines(entries)| == |entries|
    ensures ScanOutput(entries) == ErrorLines(entries) + [NoneFound]
  {
    if entries != [] {
      AllUnreadable(entries[..|entries| - 1]);
    }
  }

  /** Reads a report back into the findings it lists. */
  function ParseReport(lines: seq<string>): Option<seq<string>>
  {
    if lines == [NoneFound] then Some([])
    else if |lines| >= 2 && lines[0] == Header then Some(lines[1..])
    else None
  }

  /** The report loses nothing: the findings can be read back from it. */
  lemma ReportRoundTrip(findings: seq<string>)
    ensures ParseReport(Report(findings)) == Some(findings)
  {
  }

  // ---------------------------------------------------------------------
  // Worked scenarios
  // ---------------------------------------------------------------------

  /** `line1\r\nline2` as bytes. */
  const CRLFText: seq<byte> := [0x6C, 0x69, 0x6E, 0x65, 0x31, CR, LF, 0x6C, 0x69, 0x6E, 0x65, 0x32]
  /** `line1\nline2` as bytes. */
  const LFText: seq<byte> := [0x6C, 0x69, 0x6E, 0x65, 0x31, LF, 0x6C, 0x69, 0x6E, 0x65, 0x32]

  /** A file written with CRLF is recorded and one written with LF only is
      not; the report lists just the first. */
  lemma MixedTreeScenario()
    ensures Findings([Entry("a.txt", Bytes(CRLFText)), Entry("b.txt", Bytes(LFText))]) == ["a.txt"]
    ensures ScanOutput([Entry("a.txt", Bytes(CRLFText)), Entry("b.txt", Bytes(LFText))]) == [Header, "a.txt"]
  {
    var a := Entry("a.txt", Bytes(CRLFText));
    var b := Entry("b.txt", Bytes(LFText));
    assert CRLFText[5] == CR && CRLFText[6] == LF;
    assert Flagged(a);
    assert forall k | 0 <= k < |LFText| :: LFText[k] != CR;
    NeedsBothBytes(LFText);
    assert !Flagged(b);
    FindingsAppend([a], [b]);
    ErrorLinesAppend([a], [b]);
    FindingsOfOne(a);
    FindingsOfOne(b);
    assert [a, b] == [a] + [b];
    assert [a][..0] == [] && [b][..0] == [];
  }

  /** Content is tested undecoded: bytes that are not text are still
      recorded when they hold the pair. */
  lemma BinaryContentScenario()
    ensures Findings([Entry("sub/c.bin", Bytes([0x00, 0x0D, 0x0A, 0xFF]))]) == ["sub/c.bin"]
  {
    var s: seq<byte> := [0x00, 0x0D, 0x0A, 0xFF];
    assert s[1] == CR && s[2] == LF;
    FindingsOfOne(Entry("sub/c.bin", Bytes(s)));
  }
}
