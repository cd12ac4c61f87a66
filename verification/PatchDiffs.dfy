/** Structured git diffs, printed as lines, and what GitDiffCheck makes of them. */
module PatchDiffs {
  import opened Basics
  import opened PyText
  import opened PatchCheck

  datatype Hunk = Hunk(marker: string, lines: seq<string>)

  datatype Contents = Text(hunks: seq<Hunk>) | BinaryData(marker: string, lines: seq<string>)

  datatype FileDiff = FileDiff(command: string, headers: seq<string>, contents: Contents)

  predicate IsPatchLine(line: string)
  {
    || StartsWith(line, " ") || StartsWith(line, "-") || StartsWith(line, "+")
    || StartsWith(line, CRLF) || StartsWith(line, NO_NEWLINE)
  }

  predicate HunkOk(h: Hunk)
  {
    StartsWith(h.marker, HUNK) && forall l <- h.lines :: IsPatchLine(l)
  }

  predicate IsBinaryMarker(line: string)
  {
    StartsWith(line, GIT_BINARY) || StartsWith(line, BINARY_FILES)
  }

  predicate ContentsOk(b: Contents)
  {
    match b
    case Text(hunks) => forall h <- hunks :: HunkOk(h)
    case BinaryData(marker, lines) =>
      IsBinaryMarker(marker) && forall l <- lines :: !StartsWith(l, DIFF) && !StartsWith(l, HUNK)
  }

  predicate FileOk(f: FileDiff)
  {
    StartsWith(f.command, DIFF) && (forall h <- f.headers :: IsHeader(h)) && ContentsOk(f.contents)
  }

  // ----- printing

  function PrintHunks(hunks: seq<Hunk>): seq<string>
  {
    if hunks == [] then [] else [hunks[0].marker] + hunks[0].lines + PrintHunks(hunks[1..])
  }

  function PrintContents(b: Contents): seq<string>
  {
    match b
    case Text(hunks) => PrintHunks(hunks)
    case BinaryData(marker, lines) => [marker] + lines
  }

  function PrintFile(f: FileDiff): seq<string>
  {
    [f.command] + f.headers + PrintContents(f.contents)
  }

  function PrintFiles(files: seq<FileDiff>): seq<string>
  {
    if files == [] then [] else PrintFile(files[0]) + PrintFiles(files[1..])
  }

  // ----- what a diff means

  /** CRLF is enforced unless the file is exempt by its name or is a new submodule. */
  predicate CrlfOf(f: FileDiff)
  {
    var name := FileName(f.command);
    !IsShellScript(name) && !IsGitInternal(name) && forall h <- f.headers :: !StartsWith(h, SUBMODULE)
  }

  predicate NoTabsOf(f: FileDiff)
  {
    !IsGitInternal(FileName(f.command))
  }

  /** The last header that is not a submodule mode decides whether the file is new. */
  function NewOf(isNew: bool, headers: seq<string>): bool
    decreases |headers|
  {
    if headers == [] then isNew
    else NewOf(if StartsWith(headers[0], SUBMODULE) then isNew else IsNewFileIndex(headers[0]), headers[1..])
  }

  function AddedInLines(lines: seq<string>, name: string, crlf: bool, noTabs: bool): seq<Added>
  {
    if lines == [] then []
    else (if StartsWith(lines[0], "+") then [Added(lines[0][1..], name, crlf, noTabs)] else [])
         + AddedInLines(lines[1..], name, crlf, noTabs)
  }

  function AddedInHunks(hunks: seq<Hunk>, name: string, crlf: bool, noTabs: bool): seq<Added>
  {
    if hunks == [] then []
    else AddedInLines(hunks[0].lines, name, crlf, noTabs) + AddedInHunks(hunks[1..], name, crlf, noTabs)
  }

  /** The added lines of a file: the `+` lines of its text hunks, under its own flags. */
  function AddedInFile(f: FileDiff): seq<Added>
  {
    if f.contents.Text? then AddedInHunks(f.contents.hunks, FileName(f.command), CrlfOf(f), NoTabsOf(f)) else []
  }

  function AddedInFiles(files: seq<FileDiff>): seq<Added>
  {
    if files == [] then [] else AddedInFile(files[0]) + AddedInFiles(files[1..])
  }

  function NewBinaries(files: seq<FileDiff>): seq<string>
  {
    if files == [] then []
    else NewBinary(files[0]) + NewBinaries(files[1..])
  }

  function NewBinary(f: FileDiff): seq<string>
  {
    if f.contents.BinaryData? && NewOf(false, f.headers) then [FileName(f.command)] else []
  }

  predicate AllOk(added: seq<Added>)
  {
    forall a <- added :: LineOk(a.line, a.crlf, a.noTabs)
  }

  // ----- the machine over a list of lines

  /** Reading `lines` takes the machine from `c` to `d` with no format error and no early end. */
  ghost predicate Leads(c: Core, lines: seq<string>, d: Core)
    decreases |lines|
  {
    Ready(c) && c.formatOk &&
    if lines == [] then c == d
    else !EndsPatch(c, lines[0]) && Leads(Consume(c, lines[0]), lines[1..], d)
  }

  lemma {:induction false} LeadsAppend(c: Core, a: seq<string>, d: Core, b: seq<string>, e: Core)
    requires Leads(c, a, d) && Leads(d, b, e)
    ensures Leads(c, a + b, e)
    decreases |a|
  {
    hide EndsPatch, Consume;
    if a == [] {
      assert a + b == b;
    } else {
      LeadsAppend(Consume(c, a[0]), a[1..], d, b, e);
      assert (a + b)[1..] == a[1..] + b;
    }
  }

  lemma {:induction false} LeadsOne(c: Core, line: string, d: Core)
    requires Ready(c) && c.formatOk && !EndsPatch(c, line) && Consume(c, line) == d && d.formatOk
    ensures Leads(c, [line], d)
  {
    assert [line][1..] == [];
    assert Leads(d, [], d);
  }

  lemma {:induction false} RunFollows(lines: seq<string>, c: Core, n: nat, d: Core)
    requires n <= |lines| && Leads(c, lines[n..], d)
    ensures RunAll(lines, c, n) == (d, |lines|)
    decreases |lines| - n
  {
    if n < |lines| {
      var c' := Consume(c, lines[n]);
      assert lines[n..][1..] == lines[n + 1..];
      RunFollows(lines, c', n + 1, d);
      hide EndsPatch, Consume;
      assert RunOnce(lines, c, n) == (c', n + 1);
    }
  }

  // ----- one file

  function Checks(c: Core, added: seq<Added>): Core
  {
    c.(checked := c.checked + added, ok := c.ok && AllOk(added))
  }

  lemma {:induction false} ChecksAppend(c: Core, a: seq<Added>, b: seq<Added>)
    ensures Checks(Checks(c, a), b) == Checks(c, a + b)
    ensures Checks(c, []) == c
  {
    assert c.checked + a + b == c.checked + (a + b);
    assert c.checked + [] == c.checked;
  }

  /** The command line opens the file, whatever came before it. */
  lemma {:induction false} ReadCommand(c: Core, f: FileDiff)
    requires Ready(c) && c.formatOk && FileOk(f)
    ensures var name := FileName(f.command);
            Leads(c, [f.command],
                  c.(stage := PRE_PATCH, filename := Some(name), isNewFile := Some(false),
                     forceCrlf := Some(!IsShellScript(name) && !IsGitInternal(name)),
                     forceNoTabs := Some(!IsGitInternal(name))))
  {
    hide FileName, IsShellScript, IsGitInternal, StartsWith, Consume, EndsPatch;
    CommandOpens(c, f.command);
    LeadsOne(c, f.command, Consume(c, f.command));
  }

  /** A header is none of the other lines a PRE_PATCH stage knows. */
  lemma {:induction false} HeaderIsPlain(h: string)
    requires IsHeader(h)
    ensures !StartsWith(h, DIFF) && !StartsWith(h, HUNK) && !StartsWith(h, GIT_BINARY) && !StartsWith(h, BINARY_FILES)
  {
    var p :| p in PRE_PATCH_PREFIXES && StartsWith(h, p);
    PrefixBegins(p);
    hide StartsWith;
    PrefixesDiffer(h, p, HUNK, 0);
    PrefixesDiffer(h, p, GIT_BINARY, 0);
    PrefixesDiffer(h, p, BINARY_FILES, 0);
    PrefixesDiffer(h, p, DIFF, if p[0] == 'd' then 1 else 0);
  }

  /** How the prefixes of headers begin. */
  lemma {:induction false} PrefixBegins(p: string)
    requires p in PRE_PATCH_PREFIXES
    ensures |p| >= 2 && p[0] != '@' && p[0] != 'G' && p[0] != 'B' && (p[0] == 'd' ==> p[1] != 'i')
  {
  }

  predicate NoSubmodule(headers: seq<string>)
  {
    forall h <- headers :: !StartsWith(h, SUBMODULE)
  }

  /** The fields after the headers of a file. */
  function AfterHeaders(c: Core, headers: seq<string>): Core
    requires c.isNewFile.Some? && c.forceCrlf.Some?
  {
    c.(isNewFile := Some(NewOf(c.isNewFile.value, headers)),
       forceCrlf := Some(c.forceCrlf.value && NoSubmodule(headers)))
  }

  lemma {:induction false} ReadHeaders(c: Core, headers: seq<string>)
    requires Ready(c) && c.formatOk && c.stage == PRE_PATCH && forall h <- headers :: IsHeader(h)
    ensures Leads(c, headers, AfterHeaders(c, headers))
    decreases |headers|
  {
    if headers != [] {
      var h, rest := headers[0], headers[1..];
      assert h in headers;
      hide IsHeader, IsNewFileIndex, StartsWith, Consume, EndsPatch, AfterHeaders;
      ReadHeader(c, h);
      OneHeader(c, headers);
      ReadHeaders(Consume(c, h), rest);
    }
  }

  lemma {:induction false} OneHeader(c: Core, headers: seq<string>)
    requires c.isNewFile.Some? && c.forceCrlf.Some? && headers != []
    ensures var h := headers[0];
            var d := if StartsWith(h, SUBMODULE) then c.(forceCrlf := Some(false)) else c.(isNewFile := Some(IsNewFileIndex(h)));
            AfterHeaders(c, headers) == AfterHeaders(d, headers[1..])
  {
    hide StartsWith, IsNewFileIndex;
    assert headers == [headers[0]] + headers[1..];
  }

  lemma {:induction false} ReadHeader(c: Core, h: string)
    requires Ready(c) && c.stage == PRE_PATCH && IsHeader(h)
    ensures !EndsPatch(c, h)
    ensures Consume(c, h) == if StartsWith(h, SUBMODULE) then c.(forceCrlf := Some(false))
                             else c.(isNewFile := Some(IsNewFileIndex(h)))
  {
    HeaderIsPlain(h);
    hide IsHeader, IsNewFileIndex, StartsWith;
  }

  lemma {:induction false} ReadPatchLines(c: Core, lines: seq<string>)
    requires Ready(c) && c.formatOk && c.stage == PATCH && c.binary == Some(false)
    requires forall l <- lines :: IsPatchLine(l)
    ensures Leads(c, lines, Checks(c, AddedInLines(lines, c.filename.value, c.forceCrlf.value, c.forceNoTabs.value)))
    decreases |lines|
  {
    ChecksAppend(c, [], []);
    if lines != [] {
      var l, rest := lines[0], lines[1..];
      assert l in lines;
      var a := if StartsWith(l, "+") then [Added(l[1..], c.filename.value, c.forceCrlf.value, c.forceNoTabs.value)] else [];
      ReadPatchLine(c, l);
      ReadPatchLines(Checks(c, a), rest);
      ChecksAppend(c, a, AddedInLines(rest, c.filename.value, c.forceCrlf.value, c.forceNoTabs.value));
      hide Consume, EndsPatch, LineOk;
    }
  }

  lemma {:induction false} ReadPatchLine(c: Core, l: string)
    requires Ready(c) && c.formatOk && c.stage == PATCH && c.binary == Some(false) && IsPatchLine(l)
    ensures !EndsPatch(c, l)
    ensures Consume(c, l) ==
            if StartsWith(l, "+") then Checks(c, [Added(l[1..], c.filename.value, c.forceCrlf.value, c.forceNoTabs.value)])
            else c
  {
    hide LineOk;
    assert l[0] == ' ' || l[0] == '-' || l[0] == '+' || l[0] == '\r' || l[0] == '\\';
    assert !StartsWith(l, DIFF) && !StartsWith(l, HUNK);
  }

  /** The machine is inside a text hunk. */
  predicate InText(c: Core)
  {
    c.stage == PATCH && c.binary == Some(false)
  }

  lemma {:induction false} ReadHunks(c: Core, hunks: seq<Hunk>) returns (d: Core)
    requires Ready(c) && c.formatOk && c.stage != START
    requires forall h <- hunks :: HunkOk(h)
    ensures Leads(c, PrintHunks(hunks), d)
    ensures var e := Checks(c, AddedInHunks(hunks, c.filename.value, c.forceCrlf.value, c.forceNoTabs.value));
            d == e.(stage := d.stage, binary := d.binary) && d.stage != START
    ensures hunks != [] ==> InText(d)
    decreases |hunks|
  {
    ChecksAppend(c, [], []);
    if hunks == [] {
      d := c;
    } else {
      var h, rest := hunks[0], hunks[1..];
      assert h in hunks;
      var c1 := c.(stage := PATCH, binary := Some(false));
      PrefixesDiffer(h.marker, HUNK, DIFF, 0);
      LeadsOne(c, h.marker, c1);
      hide Consume, EndsPatch, LineOk;
      var name, crlf, noTabs := c.filename.value, c.forceCrlf.value, c.forceNoTabs.value;
      var a := AddedInLines(h.lines, name, crlf, noTabs);
      ReadPatchLines(c1, h.lines);
      d := ReadHunks(Checks(c1, a), rest);
      LeadsAppend(c, [h.marker], c1, h.lines, Checks(c1, a));
      LeadsAppend(c, [h.marker] + h.lines, Checks(c1, a), PrintHunks(rest), d);
      ChecksAppend(c1, a, AddedInHunks(rest, name, crlf, noTabs));
    }
  }

  lemma {:induction false} ReadBinaryLines(c: Core, lines: seq<string>)
    requires Ready(c) && c.formatOk && c.stage == PATCH && c.binary == Some(true)
    requires forall l <- lines :: !StartsWith(l, DIFF) && !StartsWith(l, HUNK)
    ensures Leads(c, lines, c)
    decreases |lines|
  {
    if lines != [] {
      assert lines[0] in lines;
      ReadBinaryLines(c, lines[1..]);
    }
  }

  lemma {:induction false} ReadBinary(c: Core, marker: string, lines: seq<string>)
    requires Ready(c) && c.formatOk && c.stage == PRE_PATCH && ContentsOk(BinaryData(marker, lines))
    ensures Leads(c, [marker] + lines,
                  c.(stage := PATCH, binary := Some(true),
                     newBin := c.newBin + if c.isNewFile.value then [c.filename.value] else []))
  {
    assert marker[0] == 'G' || marker[0] == 'B';
    assert !StartsWith(marker, DIFF) && !StartsWith(marker, HUNK);
    assert c.newBin + [] == c.newBin;
    var d := c.(stage := PATCH, binary := Some(true),
                newBin := c.newBin + if c.isNewFile.value then [c.filename.value] else []);
    LeadsOne(c, marker, d);
    ReadBinaryLines(d, lines);
    LeadsAppend(c, [marker], d, lines, d);
  }

  lemma {:induction false} ReadContents(c: Core, b: Contents) returns (d: Core)
    requires Ready(c) && c.formatOk && c.stage == PRE_PATCH && ContentsOk(b)
    ensures var added := if b.Text? then
                           AddedInHunks(b.hunks, c.filename.value, c.forceCrlf.value, c.forceNoTabs.value)
                         else [];
            && Leads(c, PrintContents(b), d)
            && d.checked == c.checked + added
            && (d.ok <==> c.ok && AllOk(added))
            && d.newBin == c.newBin + if b.BinaryData? && c.isNewFile.value then [c.filename.value] else []
    ensures b.Text? && b.hunks != [] ==> InText(d)
  {
    hide LineOk, Leads;
    match b {
      case Text(hunks) =>
        d := ReadHunks(c, hunks);
      case BinaryData(marker, lines) =>
        ReadBinary(c, marker, lines);
        d := c.(stage := PATCH, binary := Some(true),
                newBin := c.newBin + if c.isNewFile.value then [c.filename.value] else []);
    }
  }

  predicate EndsInText(f: FileDiff)
  {
    f.contents.Text? && f.contents.hunks != []
  }

  /** Reading one file adds exactly its added lines and its name if it is a new binary. */
  lemma {:induction false} ReadFile(c: Core, f: FileDiff) returns (d: Core)
    requires Ready(c) && c.formatOk && FileOk(f)
    ensures Leads(c, PrintFile(f), d)
    ensures Reads(c, AddedInFile(f), NewBinary(f), d)
    ensures EndsInText(f) ==> InText(d)
  {
    var name := FileName(f.command);
    var c1 := c.(stage := PRE_PATCH, filename := Some(name), isNewFile := Some(false),
                 forceCrlf := Some(!IsShellScript(name) && !IsGitInternal(name)),
                 forceNoTabs := Some(!IsGitInternal(name)));
    ReadCommand(c, f);
    var c2 := c1.(isNewFile := Some(NewOf(false, f.headers)), forceCrlf := Some(CrlfOf(f)));
    ReadHeaders(c1, f.headers);
    hide FileName, IsShellScript, IsGitInternal, LineOk, Leads, NewOf, ContentsOk, AddedInHunks, AllOk;
    LeadsAppend(c, [f.command], c1, f.headers, c2);
    d := ReadContents(c2, f.contents);
    LeadsAppend(c, [f.command] + f.headers, c2, PrintContents(f.contents), d);
  }

  lemma {:induction false} AllOkAppend(a: seq<Added>, b: seq<Added>)
    ensures AllOk(a + b) <==> AllOk(a) && AllOk(b)
  {
    hide LineOk;
    assert forall x :: x in a + b <==> x in a || x in b;
  }

  /** From `c` to `d` the added lines `added` were checked and the binary files `bins` were named. */
  predicate Reads(c: Core, added: seq<Added>, bins: seq<string>, d: Core)
  {
    d.checked == c.checked + added && (d.ok <==> c.ok && AllOk(added)) && d.newBin == c.newBin + bins
  }

  lemma {:induction false} ReadsAppend(c: Core, a: seq<Added>, b: seq<string>, d: Core, a': seq<Added>, b': seq<string>, e: Core)
    requires Reads(c, a, b, d) && Reads(d, a', b', e)
    ensures Reads(c, a + a', b + b', e)
  {
    AllOkAppend(a, a');
    Assoc(c.checked, a, a');
    Assoc(c.newBin, b, b');
    hide AllOk;
  }

  lemma {:induction false} ReadFiles(c: Core, files: seq<FileDiff>) returns (d: Core)
    requires Ready(c) && c.formatOk && forall f <- files :: FileOk(f)
    ensures Leads(c, PrintFiles(files), d)
    ensures Reads(c, AddedInFiles(files), NewBinaries(files), d)
    ensures if files == [] then d == c else EndsInText(files[|files| - 1]) ==> InText(d)
    decreases |files|
  {
    hide FileOk, PrintFile, AddedInFile, NewBinary, Leads, Reads, EndsInText, InText, Ready;
    if files == [] {
      d := c;
      NothingRead(c);
    } else {
      var f, rest := files[0], files[1..];
      assert f in files && forall g <- rest :: g in files;
      assert files[|files| - 1] == if rest == [] then f else rest[|rest| - 1];
      hide PrintFiles, AddedInFiles, NewBinaries;
      var c1 := ReadFile(c, f);
      LeadsEndsReady(c, PrintFile(f), c1);
      d := ReadFiles(c1, rest);
      FileInFront(c, files, c1, d);
    }
  }

  lemma {:induction false} NothingRead(c: Core)
    requires Ready(c) && c.formatOk
    ensures Leads(c, [], c) && Reads(c, [], [], c)
  {
    hide LineOk;
  }

  lemma {:induction false} FileInFront(c: Core, files: seq<FileDiff>, c1: Core, d: Core)
    requires files != [] && Leads(c, PrintFile(files[0]), c1) && Leads(c1, PrintFiles(files[1..]), d)
    requires Reads(c, AddedInFile(files[0]), NewBinary(files[0]), c1)
    requires Reads(c1, AddedInFiles(files[1..]), NewBinaries(files[1..]), d)
    ensures Leads(c, PrintFiles(files), d) && Reads(c, AddedInFiles(files), NewBinaries(files), d)
  {
    hide PrintFile, AddedInFile, NewBinary, Leads, Reads;
    var f, rest := files[0], files[1..];
    LeadsAppend(c, PrintFile(f), c1, PrintFiles(rest), d);
    ReadsAppend(c, AddedInFile(f), NewBinary(f), c1, AddedInFiles(rest), NewBinaries(rest), d);
  }

  lemma {:induction false} LeadsEndsReady(c: Core, lines: seq<string>, d: Core)
    requires Leads(c, lines, d)
    ensures Ready(d) && d.formatOk
    decreases |lines|
  {
    if lines != [] {
      LeadsEndsReady(Consume(c, lines[0]), lines[1..], d);
    }
  }

  /** For every structured diff the checker reads all lines, reports no format error, passes to
      check_added_line exactly the `+` lines of text hunks, in order, each under its own file's
      flags, names exactly the new binary files, and is content if and only if every one of
      those lines passes. */
  lemma {:induction false} StructuredDiffIsRead(files: seq<FileDiff>)
    requires forall f <- files :: FileOk(f)
    ensures var lines := PrintFiles(files);
            var (c, n) := RunAll(lines, INIT, 0);
            && n == |lines| && c.formatOk
            && c.checked == AddedInFiles(files)
            && (c.ok <==> AllOk(AddedInFiles(files)))
            && c.newBin == NewBinaries(files)
  {
    var lines := PrintFiles(files);
    var d := ReadFiles(INIT, files);
    LeadsEndsReady(INIT, lines, d);
    assert lines[0..] == lines;
    RunFollows(lines, INIT, 0, d);
  }

  /** A line that can neither belong to a hunk nor start one or a file. */
  predicate IsTrailer(l: string)
  {
    l != "" && !IsPatchLine(l) && !StartsWith(l, DIFF) && !StartsWith(l, HUNK)
  }

  /** Behind a structured diff that ends in a text hunk, the first such line ends the patch: what
      follows is not read, and a diff command among it is a format error. */
  lemma {:induction false} TrailerEndsDiff(files: seq<FileDiff>, l: string, rest: seq<string>)
    requires (forall f <- files :: FileOk(f)) && files != [] && EndsInText(files[|files| - 1]) && IsTrailer(l)
    ensures var lines := PrintFiles(files) + [l] + rest;
            var (c, n) := RunAll(lines, INIT, 0);
            && n == |lines| && c.checked == AddedInFiles(files) && c.newBin == NewBinaries(files)
            && (c.formatOk <==> forall r <- rest :: !StartsWith(r, DIFF))
            && (c.ok <==> c.formatOk && AllOk(AddedInFiles(files)))
  {
    var d := ReadFiles(INIT, files);
    hide FileOk, PrintFiles, AddedInFiles, NewBinaries, AllOk, Leads, RunAll, IsTrailer, StartsWith, EndsInText, InText;
    TrailerFollows(PrintFiles(files), d, l, rest);
    assert INIT.checked + AddedInFiles(files) == AddedInFiles(files);
    assert INIT.newBin + NewBinaries(files) == NewBinaries(files);
  }

  /** A trailer behind lines that lead into a text hunk. */
  lemma {:induction false} TrailerFollows(read: seq<string>, d: Core, l: string, rest: seq<string>)
    requires Leads(INIT, read, d) && InText(d) && IsTrailer(l)
    ensures d.formatOk
    ensures var lines := read + [l] + rest;
            RunAll(lines, INIT, 0) ==
            (if forall r <- rest :: !StartsWith(r, DIFF) then d else FormatError(d), |lines|)
  {
    hide Leads, RunAll, IsTrailer, DiffAfter, StartsWith, InText, Ready;
    var lines := read + [l] + rest;
    LeadsEndsReady(INIT, read, d);
    assert lines[0..|read|] == read && lines[|read|] == l;
    RunReaches(lines, INIT, 0, |read|, d);
    TrailerEnds(lines, d, |read|);
    DiffInRest(read, l, rest);
  }

  lemma {:induction false} DiffInRest(read: seq<string>, l: string, rest: seq<string>)
    ensures DiffAfter(read + [l] + rest, |read|) <==> !forall r <- rest :: !StartsWith(r, DIFF)
  {
    hide StartsWith;
    var lines := read + [l] + rest;
    assert forall k :: |read| < k < |lines| ==> lines[k] == rest[k - |read| - 1];
    if r :| r in rest && StartsWith(r, DIFF) {
      var k :| 0 <= k < |rest| && rest[k] == r;
      assert lines[|read| + 1 + k] == r;
    }
  }

  lemma {:induction false} TrailerEnds(lines: seq<string>, d: Core, n: nat)
    requires n < |lines| && Ready(d) && d.formatOk && InText(d) && IsTrailer(lines[n])
    ensures RunAll(lines, d, n) == (if DiffAfter(lines, n) then FormatError(d) else d, |lines|)
  {
    assert EndsPatch(d, lines[n]);
    hide DiffAfter, EndsPatch, Consume;
  }

  /** The machine after the lines up to `m`, in the middle of a list. */
  lemma {:induction false} RunReaches(lines: seq<string>, c: Core, n: nat, m: nat, d: Core)
    requires n <= m <= |lines| && Leads(c, lines[n..m], d)
    ensures Ready(d) && RunAll(lines, c, n) == RunAll(lines, d, m)
    decreases m - n
  {
    if n < m {
      var c' := Consume(c, lines[n]);
      assert lines[n..m][1..] == lines[n + 1..m];
      RunReaches(lines, c', n + 1, m, d);
      hide EndsPatch, Consume;
      assert RunOnce(lines, c, n) == (c', n + 1);
    }
  }

  /** One line makes a format error exactly in these cases: it should have been a diff command; it is
      none of the headers, markers or commands that may precede a hunk; it ends the patch with a diff
      command behind it; or it is empty where a patch line is due. */
  lemma {:induction false} FormatErrorIff(lines: seq<string>, c: Core, n: nat)
    requires n < |lines| && Ready(c) && c.formatOk
    ensures var l := lines[n];
            !RunOnce(lines, c, n).0.formatOk <==>
              match c.stage
              case START => !StartsWith(l, DIFF) && !AllSpace(l)
              case PRE_PATCH =>
                && !StartsWith(l, DIFF) && !StartsWith(l, HUNK) && !IsBinaryMarker(l)
                && !StartsWith(l, SUBMODULE) && !IsHeader(l)
              case PATCH =>
                && c.binary == Some(false) && !IsPatchLine(l) && !StartsWith(l, DIFF) && !StartsWith(l, HUNK)
                && (l == "" || exists k :: n < k < |lines| && StartsWith(lines[k], DIFF))
  {
    var l := lines[n];
    StripsToNothing(l);
    hide RStrip, IsHeader, IsNewFileIndex, FileName, IsShellScript, IsGitInternal, LineOk, AllSpace;
    assert l == "" ==> !StartsWith(l, DIFF) && !StartsWith(l, HUNK) && !IsPatchLine(l);
    assert StartsWith(l, " ") <==> l != "" && l[0] == ' ';
    assert StartsWith(l, "-") <==> l != "" && l[0] == '-';
    assert StartsWith(l, "+") <==> l != "" && l[0] == '+';
    assert StartsWith(l, HUNK) ==> !StartsWith(l, DIFF) by {
      if StartsWith(l, HUNK) {
        PrefixesDiffer(l, HUNK, DIFF, 0);
      }
    }
    hide StartsWith;
  }

  lemma {:induction false} StripsToNothing(l: string)
    ensures |RStrip(l)| == 0 <==> AllSpace(l)
  {
    hide IsSpace;
    if AllSpace(l) {
      RStripOf("", l);
      assert "" + l == l;
    } else {
      RStripKeeps(l);
    }
  }

  lemma {:induction false} RStripKeeps(l: string)
    requires !AllSpace(l)
    ensures RStrip(l) != ""
  {
    hide IsSpace;
    if IsSpace(l[|l| - 1]) {
      assert l == l[..|l| - 1] + [l[|l| - 1]];
      RStripKeeps(l[..|l| - 1]);
    }
  }

  // ----- commands and headers, by what they consist of

  ghost predicate BeginsWith(s: string, p: string)
  {
    exists y :: s == p + y
  }

  ghost predicate FinishesWith(s: string, p: string)
  {
    exists x :: s == x + p
  }

  lemma {:induction false} BeginsIff(s: string, p: string)
    ensures StartsWith(s, p) <==> BeginsWith(s, p)
    ensures EndsWith(s, p) <==> FinishesWith(s, p)
  {
    if StartsWith(s, p) {
      assert s == p + s[|p|..];
    }
    if EndsWith(s, p) {
      assert s == s[..|s| - |p|] + p;
    }
    if FinishesWith(s, p) {
      var x :| s == x + p;
      assert s[|x|..] == p;
    }
  }

  /** The diff command of a file opens it under its name, wherever it comes: CRLF is enforced unless
      the file is a shell script, by its extension or by one of four places, or belongs to git; tabs are
      refused unless it belongs to git. */
  lemma {:induction false} CommandIsRead(c: Core, name: string, rest: string)
    requires Ready(c) && ' ' !in name
    ensures var line := "diff --git a/" + name + " " + rest;
            var script := || FinishesWith(name, ".sh")
                          || BeginsWith(name, "BaseTools/BinWrappers/PosixLike/")
                          || BeginsWith(name, "BaseTools/BinPipWrappers/PosixLike/")
                          || BeginsWith(name, "BaseTools/Bin/CYGWIN_NT-5.1-i686/")
                          || name == "BaseTools/BuildEnv";
            var git := name == ".gitmodules" || name == "BaseTools/Conf/diff.order";
            && !EndsPatch(c, line)
            && Consume(c, line) == c.(stage := PRE_PATCH, filename := Some(name), isNewFile := Some(false),
                                      forceCrlf := Some(!script && !git), forceNoTabs := Some(!git))
  {
    hide FileName, IsShellScript, IsGitInternal, StartsWith, FinishesWith, BeginsWith;
    NameOfCommand(name, rest);
    CommandOpens(c, "diff --git a/" + name + " " + rest);
    ScriptIff(name);
    GitIff(name);
  }

  lemma GitIff(name: string)
    ensures IsGitInternal(name) <==> name == ".gitmodules" || name == "BaseTools/Conf/diff.order"
  {
  }

  lemma {:induction false} CommandOpens(c: Core, line: string)
    requires Ready(c) && StartsWith(line, DIFF)
    ensures var f := FileName(line);
            && !EndsPatch(c, line)
            && Consume(c, line) == c.(stage := PRE_PATCH, filename := Some(f), isNewFile := Some(false),
                                      forceCrlf := Some(!IsShellScript(f) && !IsGitInternal(f)),
                                      forceNoTabs := Some(!IsGitInternal(f)))
  {
    hide FileName, IsShellScript, IsGitInternal, StartsWith;
  }

  lemma {:induction false} NameOfCommand(name: string, rest: string)
    requires ' ' !in name
    ensures var line := "diff --git a/" + name + " " + rest;
            StartsWith(line, DIFF) && FileName(line) == name
  {
    var line := "diff --git a/" + name + " " + rest;
    assert line[13..] == name + [' '] + rest;
    BeforeOf(name, ' ', rest);
    assert line[..10] == DIFF;
  }

  lemma {:induction false} ScriptIff(name: string)
    ensures IsShellScript(name) <==>
            || FinishesWith(name, ".sh")
            || BeginsWith(name, "BaseTools/BinWrappers/PosixLike/")
            || BeginsWith(name, "BaseTools/BinPipWrappers/PosixLike/")
            || BeginsWith(name, "BaseTools/Bin/CYGWIN_NT-5.1-i686/")
            || name == "BaseTools/BuildEnv"
  {
    hide StartsWith, EndsWith, BeginsWith, FinishesWith;
    BeginsIff(name, ".sh");
    BeginsIff(name, "BaseTools/BinWrappers/PosixLike/");
    BeginsIff(name, "BaseTools/BinPipWrappers/PosixLike/");
    BeginsIff(name, "BaseTools/Bin/CYGWIN_NT-5.1-i686/");
  }

  /** The headers that may precede a hunk. */
  lemma {:induction false} HeaderIff(line: string)
    ensures IsHeader(line) <==>
            || StartsWith(line, "--- ") || StartsWith(line, "+++ ") || StartsWith(line, "index ")
            || StartsWith(line, "new file ") || StartsWith(line, "deleted file ")
            || StartsWith(line, "old mode ") || StartsWith(line, "new mode ")
            || StartsWith(line, "similarity index ") || StartsWith(line, "copy from ")
            || StartsWith(line, "copy to ") || StartsWith(line, "rename ")
  {
    AnyOfSix(line, "--- ", "+++ ", "index ", "new file ", "deleted file ", "old mode ",
             ["new mode ", "similarity index ", "copy from ", "copy to ", "rename "]);
    AnyOfFive(line, "new mode ", "similarity index ", "copy from ", "copy to ", "rename ");
    hide StartsWith;
  }

  lemma {:induction false} AnyOfSix(line: string, a: string, b: string, c: string, d: string, e: string, f: string, rest: seq<string>)
    ensures (exists p <- [a, b, c, d, e, f] + rest :: StartsWith(line, p)) <==>
            || StartsWith(line, a) || StartsWith(line, b) || StartsWith(line, c) || StartsWith(line, d)
            || StartsWith(line, e) || StartsWith(line, f) || exists p <- rest :: StartsWith(line, p)
  {
    hide StartsWith;
    var all := [a, b, c, d, e, f] + rest;
    assert all[0] == a && all[1] == b && all[2] == c && all[3] == d && all[4] == e && all[5] == f;
    assert forall p :: p in all <==> p == a || p == b || p == c || p == d || p == e || p == f || p in rest;
  }

  lemma {:induction false} AnyOfFive(line: string, a: string, b: string, c: string, d: string, e: string)
    ensures (exists p <- [a, b, c, d, e] :: StartsWith(line, p)) <==>
            || StartsWith(line, a) || StartsWith(line, b) || StartsWith(line, c) || StartsWith(line, d) || StartsWith(line, e)
  {
    hide StartsWith;
    var all := [a, b, c, d, e];
    assert all[0] == a && all[1] == b && all[2] == c && all[3] == d && all[4] == e;
  }

  function Zeros(n: nat): (z: string)
    ensures |z| == n && forall i :: 0 <= i < n ==> z[i] == '0'
  {
    seq(n, _ => '0')
  }

  /** One zero more in front. */
  lemma {:induction false} ZeroInFront(p: string, s: string, n: nat)
    ensures BeginsWith(s, Zeros(n) + "..") <==> BeginsWith(p + ("0" + s), p + (Zeros(n + 1) + ".."))
  {
    var t, z := p + ("0" + s), p + (Zeros(n + 1) + "..");
    assert z == p + ("0" + (Zeros(n) + ".."));
    if y :| s == Zeros(n) + ".." + y {
      assert t == z + y;
    }
    if y :| t == z + y {
      assert t[|p| + 1..] == s && z[|p| + 1..] == Zeros(n) + "..";
      assert s == Zeros(n) + ".." + y;
    }
  }

  lemma {:induction false} FirstOfZeros(s: string, n: nat)
    requires BeginsWith(s, Zeros(n) + "..")
    ensures s != "" && s[0] == if n == 0 then '.' else '0'
  {
    var y :| s == Zeros(n) + ".." + y;
    assert s[0] == (Zeros(n) + "..")[0];
  }

  lemma {:induction false} ZerosThenDotsIff(s: string)
    ensures ZerosThenDots(s) <==> exists n: nat :: BeginsWith(s, Zeros(n) + "..")
  {
    hide BeginsWith;
    if s != "" && s[0] == '0' {
      ZerosThenDotsIff(s[1..]);
      assert s == "" + ("0" + s[1..]);
      if n: nat :| BeginsWith(s[1..], Zeros(n) + "..") {
        ZeroInFront("", s[1..], n);
        assert "" + (Zeros(n + 1) + "..") == Zeros(n + 1) + "..";
      }
      if n: nat :| BeginsWith(s, Zeros(n) + "..") {
        FirstOfZeros(s, n);
        ZeroInFront("", s[1..], n - 1);
        assert "" + (Zeros(n) + "..") == Zeros(n) + "..";
      }
    } else {
      BeginsIff(s, "..");
      assert Zeros(0) + ".." == "..";
      forall n: nat | BeginsWith(s, Zeros(n) + "..")
        ensures n == 0
      {
        FirstOfZeros(s, n);
      }
    }
  }

  /** A header marks a new file exactly when it is "index", one or more zeros, and two dots. */
  lemma {:induction false} NewFileIff(line: string)
    ensures IsNewFileIndex(line) <==> exists n: nat :: n > 0 && BeginsWith(line, "index " + (Zeros(n) + ".."))
  {
    if StartsWith(line, "index 0") {
      var s := line[7..];
      assert line == "index " + ("0" + s);
      ZerosThenDotsIff(s);
      hide BeginsWith, ZerosThenDots;
      if n: nat :| BeginsWith(s, Zeros(n) + "..") {
        ZeroInFront("index ", s, n);
      }
      if n: nat :| n > 0 && BeginsWith(line, "index " + (Zeros(n) + "..")) {
        ZeroInFront("index ", s, n - 1);
      }
    } else {
      forall n: nat | n > 0
        ensures !BeginsWith(line, "index " + (Zeros(n) + ".."))
      {
        IndexBegins(line, n);
      }
    }
  }

  lemma {:induction false} IndexBegins(line: string, n: nat)
    requires n > 0
    ensures BeginsWith(line, "index " + (Zeros(n) + "..")) ==> StartsWith(line, "index 0")
  {
    assert Zeros(n) == "0" + Zeros(n - 1);
    if y :| line == "index " + (Zeros(n) + "..") + y {
      assert line == "index 0" + ((Zeros(n - 1) + "..") + y);
    }
  }
}
