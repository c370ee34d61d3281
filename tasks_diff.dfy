/**
 * The diff task: runs `diff -u` on one file of the two module versions and rewrites the file
 * headers of its output so that the patch applies to the destination path. Bytes are modelled
 * as characters, one per byte.
 */
module TaskDiffs {
  import opened Errors
  import opened TaskResults

  /** TaskDiff: the file (relative to each module directory) and where it lives in the project. */
  datatype TaskDiff = TaskDiff(source: string, destination: string)

  /** What cmd.Run reported: no error, an *exec.ExitError, or some other error. */
  datatype RunStatus = Exited | ExitError(code: int) | OtherError(error: Error)

  /** The diff tool's status, the lines the scanner split its stdout into, and the scanner's error. */
  datatype DiffOutput = DiffOutput(status: RunStatus, lines: seq<string>, scanError: Option<Error>)

  /** Exit classification: only an ExitError whose code is not 1 is fatal. */
  function ExitCheck(status: RunStatus): (err: Option<Error>)
    ensures err.Some? <==> status.ExitError? && status.code != 1
    ensures err.Some? ==> err.value == ExitStatus(status.code)
  {
    match status
    case ExitError(code) => if code != 1 then Some(ExitStatus(code)) else None
    case _ => None
  }

  /** Index of the first `c` in `s`, or -1 (bytes.IndexRune for a one-byte rune). */
  function IndexOf(s: string, c: char): (i: int)
    ensures -1 <= i < |s|
    ensures i < 0 <==> c !in s
    ensures i >= 0 ==> s[i] == c && c !in s[..i]
  {
    if s == [] then -1
    else if s[0] == c then 0
    else
      var k := IndexOf(s[1..], c);
      assert s == [s[0]] + s[1..];
      assert k >= 0 ==> s[..k + 1] == [s[0]] + s[1..][..k];
      if k < 0 then -1 else k + 1
  }

  /**
   * b[:4] of a header token. A token of exactly three bytes ("+++" or "---") extends into the
   * scanner's buffer, whose next byte is the line's '\n' terminator.
   */
  function LineStart(line: string): (s: string)
    requires |line| >= 3
    ensures |s| == 4 && s[..3] == line[..3]
    ensures |line| >= 4 ==> s == line[..4]
  {
    if |line| >= 4 then line[..4] else line + "\n"
  }

  /**
   * The trailing metadata kept from a header line: everything from the first tab at or after
   * byte 3, provided that tab is not byte 3 itself; otherwise nothing.
   */
  function TabTail(line: string): (t: string)
    requires |line| >= 3
    ensures t == "" <==> '\t' !in line[3..] || line[3] == '\t'
    ensures t != "" ==> t[0] == '\t' && 4 + |t| <= |line| && t == line[|line| - |t|..]
    ensures t != "" ==> '\t' !in line[3..|line| - |t|]
  {
    var pos := IndexOf(line[3..], '\t');
    if pos > 0 then
      assert line[3..][..pos] == line[3..3 + pos];
      line[3 + pos..]
    else ""
  }

  /** A rewritten header line: its first four bytes, the new path, the kept metadata, a newline. */
  function RewriteHeader(line: string, path: string): string
    requires |line| >= 3
  {
    LineStart(line) + path + TabTail(line) + "\n"
  }

  /** One scanned line: `+++` lines get the new path, `---` lines the old path, others pass through. */
  function RewriteLine(line: string, newPath: string, oldPath: string): string
  {
    if "+++" <= line then RewriteHeader(line, newPath)
    else if "---" <= line then RewriteHeader(line, oldPath)
    else line + "\n"
  }

  /** The concatenation of `f` applied to each line, in order. */
  function Concat(lines: seq<string>, f: string -> string): string
  {
    if lines == [] then [] else Concat(lines[..|lines| - 1], f) + f(lines[|lines| - 1])
  }

  lemma {:induction false} ConcatAppend(a: seq<string>, b: seq<string>, f: string -> string)
    ensures Concat(a + b, f) == Concat(a, f) + Concat(b, f)
  {
    if b == [] {
      assert a + b == a;
    } else {
      assert (a + b)[..|a + b| - 1] == a + b[..|b| - 1];
      ConcatAppend(a, b[..|b| - 1], f);
    }
  }

  lemma {:induction false} ConcatPointwise(lines: seq<string>, f: string -> string, g: string -> string)
    requires forall i :: 0 <= i < |lines| ==> f(lines[i]) == g(lines[i])
    ensures Concat(lines, f) == Concat(lines, g)
  {
    if lines != [] {
      ConcatPointwise(lines[..|lines| - 1], f, g);
    }
  }

  /** The whole rewritten diff: each line's rewrite, in order. */
  function RewriteLines(lines: seq<string>, newPath: string, oldPath: string): string
  {
    Concat(lines, line => RewriteLine(line, newPath, oldPath))
  }

  /** Lines joined with a newline after each, the output when no line is a header. */
  function Unlines(lines: seq<string>): string
  {
    Concat(lines, line => line + "\n")
  }

  predicate IsHeader(line: string) {
    "+++" <= line || "---" <= line
  }

  /** A header line keeps its marker and metadata: only the path between them is replaced. */
  lemma HeaderKeepsMetadata(line: string, path: string, t: nat)
    requires 4 <= t < |line| && line[t] == '\t' && '\t' !in line[3..t]
    ensures RewriteHeader(line, path) == line[..4] + path + line[t..] + "\n"
  {
    TabTailAt(line, t);
  }

  lemma TabTailAt(line: string, t: nat)
    requires 4 <= t < |line| && line[t] == '\t' && '\t' !in line[3..t]
    ensures TabTail(line) == line[t..]
  {
    var tail := TabTail(line);
    assert line[3..][t - 3] == '\t';
    assert line[3] != '\t' by { assert line[3..t][0] == line[3]; }
  }

  /**
   * The example: in a `+++` or `---` header `<marker> <file><TAB><meta>` (the file path holds no
   * tab) the marker and the tab-separated timestamp are kept and the file path is replaced, by the
   * new path for `+++` and by the old path for `---`.
   */
  lemma HeaderLineRewrite(marker: string, file: string, meta: string, newPath: string, oldPath: string)
    requires marker == "+++" || marker == "---"
    requires '\t' !in file
    ensures var line, t := marker + " " + file + "\t" + meta, 4 + |file|;
      && line[..4] == marker + " "
      && line[t..] == "\t" + meta
      && RewriteLine(line, newPath, oldPath) == line[..4] + (if marker == "+++" then newPath else oldPath) + line[t..] + "\n"
  {
    var line := marker + " " + file + "\t" + meta;
    var t := 4 + |file|;
    assert line[..3] == marker;
    assert line[..4] == marker + " ";
    assert line[t..] == "\t" + meta;
    assert line[3..t] == " " + file;
    assert line[t] == '\t';
    if marker == "+++" {
      assert "+++" <= line;
      HeaderKeepsMetadata(line, newPath, t);
    } else {
      assert line[0] == '-';
      assert "---" <= line;
      HeaderKeepsMetadata(line, oldPath, t);
    }
  }

  /** Rewriting distributes over splitting the diff output anywhere. */
  lemma RewriteLinesAppend(a: seq<string>, b: seq<string>, newPath: string, oldPath: string)
    ensures RewriteLines(a + b, newPath, oldPath) == RewriteLines(a, newPath, oldPath) + RewriteLines(b, newPath, oldPath)
  {
    ConcatAppend(a, b, line => RewriteLine(line, newPath, oldPath));
  }

  /** Without header lines the diff passes through unchanged, one newline restored per line. */
  lemma NoHeadersPassThrough(lines: seq<string>, newPath: string, oldPath: string)
    requires forall i :: 0 <= i < |lines| ==> !IsHeader(lines[i])
    ensures RewriteLines(lines, newPath, oldPath) == Unlines(lines)
  {
    ConcatPointwise(lines, line => RewriteLine(line, newPath, oldPath), line => line + "\n");
  }

  lemma RewriteLinesSnoc(lines: seq<string>, i: nat, newPath: string, oldPath: string)
    requires i < |lines|
    ensures RewriteLines(lines[..i + 1], newPath, oldPath)
         == RewriteLines(lines[..i], newPath, oldPath) + RewriteLine(lines[i], newPath, oldPath)
  {
    assert lines[..i + 1][..i] == lines[..i];
  }

  /**
   * The body of the scan loop of TaskDiff.run for one line. The tab is looked up in the line
   * as scanned (see HeaderAsWritten for the source's order).
   */
  method RewriteOne(b: string, newPath: string, oldPath: string) returns (piece: string)
    ensures piece == RewriteLine(b, newPath, oldPath)
  {
    if "+++" <= b {
      piece := RewriteHeaderOne(b, newPath);
    } else if "---" <= b {
      piece := RewriteHeaderOne(b, oldPath);
    } else {
      piece := b + "\n";
    }
  }

  /** The header branch of the scan loop body: marker, path, the kept metadata, a newline. */
  method RewriteHeaderOne(b: string, path: string) returns (piece: string)
    requires |b| >= 3
    ensures piece == RewriteHeader(b, path)
  {
    var offset := 3;
    var pos := IndexOf(b[offset..], '\t');
    var tail: string := [];
    if pos > 0 {
      pos := pos + offset;
      tail := b[pos..];
    }
    assert tail == TabTail(b);
    piece := LineStart(b) + path + tail + "\n";
  }

  /** The scan loop of TaskDiff.run: appends each rewritten line to the growing `diff` buffer. */
  method Rewrite(lines: seq<string>, newPath: string, oldPath: string) returns (diff: string)
    ensures diff == RewriteLines(lines, newPath, oldPath)
  {
    diff := [];
    var i := 0;
    while i < |lines|
      invariant 0 <= i <= |lines|
      invariant diff == RewriteLines(lines[..i], newPath, oldPath)
    {
      RewriteLinesSnoc(lines, i, newPath, oldPath);
      var piece := RewriteOne(lines[i], newPath, oldPath);
      diff := diff + piece;
      i := i + 1;
    }
    assert lines[..i] == lines;
  }

  /** TaskDiff.run on a given diff output; `newPath`/`oldPath` are join("new"/"old", destination). */
  function DiffOutcome(out: DiffOutput, newPath: string, oldPath: string): (r: Outcome<Option<Result>>)
    ensures r.Ok? <==> ExitCheck(out.status).None? && out.scanError.None?
    ensures ExitCheck(out.status).Some? ==> r == Fail(ExitCheck(out.status).value)
    ensures ExitCheck(out.status).None? && out.scanError.Some? ==> r == Fail(out.scanError.value)
    ensures r.Ok? ==> (r.value.Some? && r.value.value.filesToCopy == [] && r.value.value.filesToDelete == []
                       && r.value.value.patches == [Patch(RewriteLines(out.lines, newPath, oldPath))])
  {
    match ExitCheck(out.status)
    case Some(e) => Fail(e)
    case None =>
      match out.scanError
      case Some(e) => Fail(e)
      case None => Ok(Some(Result([], [], [Patch(RewriteLines(out.lines, newPath, oldPath))])))
  }

  /**
   * TaskDiff.run: `runDiff` stands for `diff -u <before>/<source> <after>/<source>` and `join`
   * for filepath.Join.
   */
  method Run(t: TaskDiff, beforeDir: string, afterDir: string,
             join: (string, string) -> string, runDiff: (string, string) -> DiffOutput)
    returns (r: Outcome<Option<Result>>)
    ensures r == DiffOutcome(runDiff(join(beforeDir, t.source), join(afterDir, t.source)),
                             join("new", t.destination), join("old", t.destination))
  {
    var out := runDiff(join(beforeDir, t.source), join(afterDir, t.source));
    var exitErr := ExitCheck(out.status);
    if exitErr.Some? {
      return Fail(exitErr.value);
    }
    var diff := Rewrite(out.lines, join("new", t.destination), join("old", t.destination));
    if out.scanError.Some? {
      return Fail(out.scanError.value);
    }
    r := Ok(Some(Result([], [], [Patch(diff)])));
  }

  // ----- The header rewrite as written: append(b[:4], path...) reuses b's buffer -----

  /**
   * The scanned line after `append(b[:4], path...)` has written the path into the line's own
   * buffer (the scanner's buffer has room): bytes 4 .. 4+|path| of the line are overwritten.
   */
  function Overwritten(line: string, path: string): (b: string)
    ensures |b| == |line|
    ensures forall j :: 0 <= j < |line| ==> b[j] == if 4 <= j < 4 + |path| then path[j - 4] else line[j]
  {
    seq(|line|, j requires 0 <= j < |line| => if 4 <= j < 4 + |path| then path[j - 4] else line[j])
  }

  /** The header rewrite in the source's order: the tab is searched for after the overwrite. */
  function HeaderAsWritten(line: string, path: string): string
    requires |line| >= 3
  {
    LineStart(line) + path + TabTailAsWritten(line, path) + "\n"
  }

  /** The metadata the source keeps: from the first tab after byte 3 of the overwritten line. */
  function TabTailAsWritten(line: string, path: string): string
    requires |line| >= 3
  {
    var b := Overwritten(line, path);
    var pos := IndexOf(b[3..], '\t');
    if pos > 0 then b[3 + pos..] else ""
  }

  /**
   * A path longer than the original one overwrites the tab: for the header `--- a<TAB>X` and the
   * path `old/dest`, the source's order drops the timestamp `<TAB>X` that the intended order keeps.
   */
  lemma HeaderAsWrittenLosesMetadata()
    ensures var line, path := "--- a\tX", "old/dest";
      && line[5..] == "\tX"
      && HeaderAsWritten(line, path) == line[..4] + path + "\n"
      && RewriteHeader(line, path) == line[..4] + path + line[5..] + "\n"
      && HeaderAsWritten(line, path) != RewriteHeader(line, path)
  {
    var line, path := "--- a\tX", "old/dest";
    var b := Overwritten(line, path);
    assert b == "--- old";
    assert '\t' !in b[3..];
    assert TabTailAsWritten(line, path) == "";
    assert line[3..5] == " a";
    HeaderKeepsMetadata(line, path, 5);
  }

  /** One scanned line as the source rewrites it: headers in the source's order. */
  function RewriteLineAsWritten(line: string, newPath: string, oldPath: string): string
  {
    if "+++" <= line then HeaderAsWritten(line, newPath)
    else if "---" <= line then HeaderAsWritten(line, oldPath)
    else line + "\n"
  }

  /** The scan loop as the source writes it, one line at a time. */
  function RewriteLinesAsWritten(lines: seq<string>, newPath: string, oldPath: string): string
  {
    Concat(lines, line => RewriteLineAsWritten(line, newPath, oldPath))
  }

  /**
   * The path is free of tabs and, written from byte 4 on, stays inside the line and ends before
   * every tab of it; so the source's write neither clobbers the metadata nor spills past the line.
   */
  predicate PathFits(line: string, path: string)
  {
    '\t' !in path && 4 + |path| <= |line| && forall j :: 4 <= j < |line| && line[j] == '\t' ==> 4 + |path| <= j
  }

  /**
   * When each header's new path fits before the header's tabs, the loop as written produces the
   * same diff as the corrected one.
   */
  lemma RewriteLinesAsWrittenAgrees(lines: seq<string>, newPath: string, oldPath: string)
    requires forall i :: 0 <= i < |lines| && "+++" <= lines[i] ==> PathFits(lines[i], newPath)
    requires forall i :: 0 <= i < |lines| && !("+++" <= lines[i]) && "---" <= lines[i] ==> PathFits(lines[i], oldPath)
    ensures RewriteLinesAsWritten(lines, newPath, oldPath) == RewriteLines(lines, newPath, oldPath)
  {
    forall i | 0 <= i < |lines|
      ensures RewriteLineAsWritten(lines[i], newPath, oldPath) == RewriteLine(lines[i], newPath, oldPath)
    {
      if "+++" <= lines[i] {
        HeaderAsWrittenAgrees(lines[i], newPath);
      } else if "---" <= lines[i] {
        HeaderAsWrittenAgrees(lines[i], oldPath);
      }
    }
    ConcatPointwise(lines, line => RewriteLineAsWritten(line, newPath, oldPath), line => RewriteLine(line, newPath, oldPath));
  }

  /** Two strings with their `c` in the same places have the same first `c`. */
  lemma {:induction false} IndexOfSameMask(s1: string, s2: string, c: char)
    requires |s1| == |s2|
    requires forall j :: 0 <= j < |s1| ==> (s1[j] == c <==> s2[j] == c)
    ensures IndexOf(s1, c) == IndexOf(s2, c)
  {
    if s1 != [] {
      IndexOfSameMask(s1[1..], s2[1..], c);
    }
  }

  lemma OverwrittenKeepsTabs(line: string, path: string)
    requires '\t' !in path
    requires forall j :: 4 <= j < |line| && line[j] == '\t' ==> 4 + |path| <= j
    ensures forall j :: 3 <= j < |line| ==> (Overwritten(line, path)[j] == '\t' <==> line[j] == '\t')
  {
    var b := Overwritten(line, path);
    forall j | 3 <= j < |line| ensures b[j] == '\t' <==> line[j] == '\t' {
      if 4 <= j < 4 + |path| {
        assert path[j - 4] in path;
      }
    }
  }

  /** When the new path fits before the original tab (and holds no tab), both orders agree. */
  lemma HeaderAsWrittenAgrees(line: string, path: string)
    requires |line| >= 3 && '\t' !in path
    requires forall j :: 4 <= j < |line| && line[j] == '\t' ==> 4 + |path| <= j
    ensures HeaderAsWritten(line, path) == RewriteHeader(line, path)
  {
    TailAsWrittenAgrees(line, path);
  }

  lemma TailAsWrittenAgrees(line: string, path: string)
    requires |line| >= 3 && '\t' !in path
    requires forall j :: 4 <= j < |line| && line[j] == '\t' ==> 4 + |path| <= j
    ensures TabTailAsWritten(line, path) == TabTail(line)
  {
    SameFirstTab(line, path);
    var pos := IndexOf(line[3..], '\t');
    if pos > 0 {
      SameFrom(line, path, 3 + pos);
    }
  }

  lemma SameFirstTab(line: string, path: string)
    requires |line| >= 3 && '\t' !in path
    requires forall j :: 4 <= j < |line| && line[j] == '\t' ==> 4 + |path| <= j
    ensures IndexOf(Overwritten(line, path)[3..], '\t') == IndexOf(line[3..], '\t')
  {
    var b := Overwritten(line, path);
    OverwrittenKeepsTabs(line, path);
    assert forall j :: 0 <= j < |line| - 3 ==> b[3..][j] == b[j + 3] && line[3..][j] == line[j + 3];
    IndexOfSameMask(b[3..], line[3..], '\t');
  }

  lemma SameFrom(line: string, path: string, t: nat)
    requires 4 <= t < |line| && line[t] == '\t'
    requires forall j :: 4 <= j < |line| && line[j] == '\t' ==> 4 + |path| <= j
    ensures Overwritten(line, path)[t..] == line[t..]
  {
  }
}
