/** GitDiffCheck: a three-state machine over the lines of a git diff, and the checks it makes on
    every added line. */
module PatchCheck {
  import opened Basics
  import opened PyText

  datatype Stage = START | PRE_PATCH | PATCH

  const DIFF: string := "diff --git"
  const HUNK: string := "@@ "
  const NO_NEWLINE: string := "\\ No newline "
  const SUBMODULE: string := "new file mode 160000"
  const GIT_BINARY: string := "GIT binary patch"
  const BINARY_FILES: string := "Binary files"

  const PRE_PATCH_PREFIXES: seq<string> :=
    ["--- ", "+++ ", "index ", "new file ", "deleted file ", "old mode ", "new mode ",
     "similarity index ", "copy from ", "copy to ", "rename "]

  const LINE_ENDINGS: seq<string> := ["\r\n", "\n\r", "\n", "\r"]

  // ----- added lines

  /** The suffix loop, which does not stop at the first match: what is left, and the last ending
      that was cut off. */
  function CutEndings(line: string, eol: string, endings: seq<string>): (r: (string, string))
    decreases |endings|
  {
    if endings == [] then (line, eol)
    else if endings[0] != "" && EndsWith(line, endings[0]) then
      CutEndings(line[..|line| - |endings[0]|], endings[0], endings[1..])
    else CutEndings(line, eol, endings[1..])
  }

  function Upper(s: string): (n: nat)
    ensures n <= |s|
  {
    if s != "" && ('A' <= s[0] <= 'Z' || s[0] == '_') then 1 + Upper(s[1..]) else 0
  }

  /** (?: DEBUG_[A-Z_]+ \s* \| \s* )* EFI_D_ [A-Z_]+ */
  predicate OldLevels(s: string)
    decreases |s|
  {
    if StartsWith(s, "DEBUG_") then
      var rest := s[6..];
      var n := Upper(rest);
      var bar := LStrip(rest[n..]);
      n > 0 && StartsWith(bar, "|") && OldLevels(LStrip(bar[1..]))
    else StartsWith(s, "EFI_D_") && Upper(s[6..]) > 0
  }

  /** DEBUG \s* \( \s* \( \s* followed by old levels, at the front of `s`. */
  predicate OldDebugHere(s: string)
  {
    StartsWith(s, "DEBUG") &&
    var a := LStrip(s[5..]);
    StartsWith(a, "(") &&
    var b := LStrip(a[1..]);
    StartsWith(b, "(") && OldLevels(LStrip(b[1..]))
  }

  predicate OldDebug(s: string)
  {
    OldDebugHere(s) || (s != "" && OldDebug(s[1..]))
  }

  predicate EolOk(body: string, eol: string, crlf: bool)
  {
    crlf && eol != CRLF ==> Contains(body, "Subproject commit")
  }

  /** check_added_line reports nothing. */
  predicate LineOk(line: string, crlf: bool, noTabs: bool)
  {
    var (body, eol) := CutEndings(line, "", LINE_ENDINGS);
    && EolOk(body, eol, crlf)
    && (noTabs ==> '\t' !in body)
    && |RStrip(body)| == |body|
    && !OldDebug(body)
  }

  // ----- the machine

  /** A call of check_added_line and the flags it was made under. */
  datatype Added = Added(line: string, filename: string, crlf: bool, noTabs: bool)

  /** The fields of the object; those that __init__ does not set are options. */
  datatype Core = Core(ok: bool, formatOk: bool, stage: Stage, newBin: seq<string>,
                       filename: Option<string>, isNewFile: Option<bool>,
                       forceCrlf: Option<bool>, forceNoTabs: Option<bool>, binary: Option<bool>,
                       checked: seq<Added>)

  const INIT: Core := Core(true, true, START, [], None, None, None, None, None, [])

  /** Every field a stage reads has been set. */
  predicate Ready(c: Core)
  {
    && (c.stage != START ==> c.filename.Some? && c.isNewFile.Some? && c.forceCrlf.Some? && c.forceNoTabs.Some?)
    && (c.stage == PATCH ==> c.binary.Some?)
  }

  function FileName(line: string): string
  {
    Before(From(line, 13), ' ')
  }

  predicate IsShellScript(f: string)
  {
    || EndsWith(f, ".sh")
    || StartsWith(f, "BaseTools/BinWrappers/PosixLike/")
    || StartsWith(f, "BaseTools/BinPipWrappers/PosixLike/")
    || StartsWith(f, "BaseTools/Bin/CYGWIN_NT-5.1-i686/")
    || f == "BaseTools/BuildEnv"
  }

  predicate IsGitInternal(f: string)
  {
    f == ".gitmodules" || f == "BaseTools/Conf/diff.order"
  }

  predicate ZerosThenDots(s: string)
  {
    if s != "" && s[0] == '0' then ZerosThenDots(s[1..]) else StartsWith(s, "..")
  }

  /** ^index 0+\.\. */
  predicate IsNewFileIndex(line: string)
  {
    StartsWith(line, "index 0") && ZerosThenDots(line[7..])
  }

  predicate IsHeader(line: string)
  {
    exists p <- PRE_PATCH_PREFIXES :: StartsWith(line, p)
  }

  function FormatError(c: Core): Core
  {
    c.(formatOk := false, ok := false)
  }

  /** A line in the PATCH stage that is no patch line ends the patch. */
  predicate EndsPatch(c: Core, line: string)
    requires Ready(c)
  {
    && c.stage == PATCH && !StartsWith(line, DIFF) && !StartsWith(line, HUNK)
    && line != "" && line[0] != ' ' && line[0] != '-' && line[0] != '+'
    && !StartsWith(line, CRLF) && !StartsWith(line, NO_NEWLINE) && !c.binary.value
  }

  /** The stage in which a line is handled. */
  function Entered(c: Core, line: string): Stage
  {
    if c.stage != START && StartsWith(line, DIFF) then START
    else if c.stage == PATCH && StartsWith(line, HUNK) then PRE_PATCH
    else c.stage
  }

  function InStart(c: Core, line: string): Core
  {
    if StartsWith(line, DIFF) then
      var f := FileName(line);
      c.(stage := PRE_PATCH, filename := Some(f), isNewFile := Some(false),
         forceCrlf := Some(!IsShellScript(f) && !IsGitInternal(f)), forceNoTabs := Some(!IsGitInternal(f)))
    else if |RStrip(line)| != 0 then FormatError(c)
    else c
  }

  function InPrePatch(c: Core, line: string): Core
    requires c.filename.Some? && c.isNewFile.Some?
  {
    if StartsWith(line, HUNK) then c.(stage := PATCH, binary := Some(false))
    else if StartsWith(line, GIT_BINARY) || StartsWith(line, BINARY_FILES) then
      c.(stage := PATCH, binary := Some(true),
         newBin := if c.isNewFile.value then c.newBin + [c.filename.value] else c.newBin)
    else if StartsWith(line, SUBMODULE) then c.(forceCrlf := Some(false))
    else
      var c' := c.(isNewFile := Some(IsNewFileIndex(line)));
      if IsHeader(line) then c' else FormatError(c')
  }

  function Checked(c: Core, line: string): Core
    requires c.filename.Some? && c.forceCrlf.Some? && c.forceNoTabs.Some?
  {
    var a := Added(line, c.filename.value, c.forceCrlf.value, c.forceNoTabs.value);
    c.(checked := c.checked + [a], ok := c.ok && LineOk(a.line, a.crlf, a.noTabs))
  }

  function InPatch(c: Core, line: string): Core
    requires c.filename.Some? && c.forceCrlf.Some? && c.forceNoTabs.Some? && c.binary.Some?
  {
    if c.binary.value || StartsWith(line, "-") then c
    else if StartsWith(line, "+") then Checked(c, line[1..])
    else if StartsWith(line, CRLF) || StartsWith(line, NO_NEWLINE) || StartsWith(line, " ") then c
    else FormatError(c)
  }

  /** One line that does not end the patch. */
  function Consume(c: Core, line: string): (c': Core)
    requires Ready(c)
    ensures Ready(c')
    ensures c'.ok ==> c.ok
    ensures c.formatOk && !c'.formatOk ==> !c'.ok
  {
    var s := Entered(c, line);
    match s
    case START => InStart(c.(stage := START), line)
    case PRE_PATCH => InPrePatch(c.(stage := PRE_PATCH), line)
    case PATCH => InPatch(c, line)
  }

  predicate DiffAfter(lines: seq<string>, n: nat)
  {
    exists k :: n < k < |lines| && StartsWith(lines[k], DIFF)
  }

  /** One call of run at line `n`: the new fields and the new line number. */
  function RunOnce(lines: seq<string>, c: Core, n: nat): (r: (Core, nat))
    requires n < |lines| && Ready(c)
    ensures Ready(r.0) && n < r.1 <= |lines|
    ensures r.0.ok ==> c.ok
  {
    if EndsPatch(c, lines[n]) then (if DiffAfter(lines, n) then FormatError(c) else c, |lines|)
    else (Consume(c, lines[n]), n + 1)
  }

  function RunAll(lines: seq<string>, c: Core, n: nat): (r: (Core, nat))
    requires n <= |lines| && Ready(c)
    ensures Ready(r.0) && n <= r.1 <= |lines|
    ensures r.0.ok ==> c.ok
    ensures r.1 < |lines| ==> !r.0.formatOk
    decreases |lines| - n
  {
    if n == |lines| || !c.formatOk then (c, n)
    else
      var (c', n') := RunOnce(lines, c, n);
      RunAll(lines, c', n')
  }

  class GitDiffCheck {
    var ok: bool
    var formatOk: bool
    const lines: seq<string>
    var lineNum: nat
    var stage: Stage
    var newBin: seq<string>
    var filename: Option<string>
    var isNewFile: Option<bool>
    var forceCrlf: Option<bool>
    var forceNoTabs: Option<bool>
    var binary: Option<bool>
    var checked: seq<Added>

    function Fields(): Core
      reads this
    {
      Core(ok, formatOk, stage, newBin, filename, isNewFile, forceCrlf, forceNoTabs, binary, checked)
    }

    constructor (lines: seq<string>)
      ensures this.lines == lines && Fields() == INIT && lineNum == 0
    {
      this.lines := lines;
      ok, formatOk, lineNum, stage, newBin := true, true, 0, START, [];
      filename, isNewFile, forceCrlf, forceNoTabs, binary := None, None, None, None, None;
      checked := [];
    }

    method FormatErrorFound()
      modifies this`ok, this`formatOk
      ensures Fields() == FormatError(old(Fields()))
    {
      formatOk := false;
      ok := false;
    }

    /** check_added_line: each failed check is an error. */
    method CheckAddedLine(added: string)
      requires filename.Some? && forceCrlf.Some? && forceNoTabs.Some?
      modifies this`ok, this`checked
      ensures Fields() == Checked(old(Fields()), added)
    {
      checked := checked + [Added(added, filename.value, forceCrlf.value, forceNoTabs.value)];
      var line, eol := CutLineEndings(added);
      hide CutEndings, OldDebug, Contains, RStrip;
      var stripped := RStrip(line);
      if forceCrlf.value && eol != CRLF && !Contains(line, "Subproject commit") {
        ok := false;
      }
      if forceNoTabs.value && '\t' in line {
        ok := false;
      }
      if |stripped| < |line| {
        ok := false;
      }
      if OldDebug(line) {
        ok := false;
      }
    }

    /** The suffix loop of check_added_line. */
    method CutLineEndings(added: string) returns (line: string, eol: string)
      ensures (line, eol) == CutEndings(added, "", LINE_ENDINGS)
    {
      line, eol := added, "";
      var i := 0;
      while i < |LINE_ENDINGS|
        invariant i <= |LINE_ENDINGS|
        invariant CutEndings(added, "", LINE_ENDINGS) == CutEndings(line, eol, LINE_ENDINGS[i..])
      {
        if EndsWith(line, LINE_ENDINGS[i]) {
          eol := LINE_ENDINGS[i];
          line := line[..|line| - |eol|];
        }
        i := i + 1;
      }
    }

    /** The search for another diff after the end of a patch. */
    method EndOfPatch()
      requires lineNum < |lines|
      modifies this`ok, this`formatOk, this`lineNum
      ensures lineNum == |lines|
      ensures Fields() == if DiffAfter(lines, old(lineNum)) then FormatError(old(Fields())) else old(Fields())
    {
      var k := lineNum + 1;
      while k < |lines|
        invariant lineNum < k <= |lines| && lineNum == old(lineNum) && Fields() == old(Fields())
        invariant forall j :: lineNum < j < k ==> !StartsWith(lines[j], DIFF)
      {
        if StartsWith(lines[k], DIFF) {
          FormatErrorFound();
          break;
        }
        k := k + 1;
      }
      lineNum := |lines|;
    }

    /** The START branch of run. */
    method HandleStart(line: string)
      modifies this
      ensures Fields() == InStart(old(Fields()), line) && lineNum == old(lineNum)
    {
      hide IsShellScript, IsGitInternal, FileName, RStrip;
      if StartsWith(line, DIFF) {
        stage := PRE_PATCH;
        var f := FileName(line);
        filename, isNewFile, forceCrlf, forceNoTabs := Some(f), Some(false), Some(true), Some(true);
        if IsShellScript(f) {
          forceCrlf := Some(false);
        }
        if IsGitInternal(f) {
          forceCrlf := Some(false);
          forceNoTabs := Some(false);
        }
      } else if |RStrip(line)| != 0 {
        FormatErrorFound();
      }
    }

    /** The PRE_PATCH branch of run. */
    method HandlePrePatch(line: string)
      requires filename.Some? && isNewFile.Some?
      modifies this
      ensures Fields() == InPrePatch(old(Fields()), line) && lineNum == old(lineNum)
    {
      if StartsWith(line, HUNK) {
        stage, binary := PATCH, Some(false);
      } else if StartsWith(line, GIT_BINARY) || StartsWith(line, BINARY_FILES) {
        stage, binary := PATCH, Some(true);
        if isNewFile.value {
          newBin := newBin + [filename.value];
        }
      } else if StartsWith(line, SUBMODULE) {
        forceCrlf := Some(false);
      } else {
        isNewFile := Some(IsNewFileIndex(line));
        var known, i := false, 0;
        while i < |PRE_PATCH_PREFIXES|
          invariant i <= |PRE_PATCH_PREFIXES|
          invariant known <==> exists j :: 0 <= j < i && StartsWith(line, PRE_PATCH_PREFIXES[j])
        {
          if StartsWith(line, PRE_PATCH_PREFIXES[i]) {
            known := true;
          }
          i := i + 1;
        }
        assert known <==> IsHeader(line);
        if !known {
          FormatErrorFound();
        }
      }
    }

    /** The PATCH branch of run, for a line that does not end the patch. */
    method HandlePatch(line: string)
      requires filename.Some? && forceCrlf.Some? && forceNoTabs.Some? && binary.Some?
      modifies this`ok, this`formatOk, this`checked
      ensures Fields() == InPatch(old(Fields()), line)
    {
      hide Checked;
      if binary.value || StartsWith(line, "-") {
      } else if StartsWith(line, "+") {
        CheckAddedLine(line[1..]);
      } else if StartsWith(line, CRLF) || StartsWith(line, NO_NEWLINE) {
      } else if !StartsWith(line, " ") {
        FormatErrorFound();
      }
    }

    /** run: one step of the machine. */
    method Run()
      requires lineNum < |lines| && Ready(Fields())
      modifies this
      ensures (Fields(), lineNum) == RunOnce(lines, old(Fields()), old(lineNum))
    {
      hide StartsWith, InStart, InPrePatch, InPatch, DiffAfter;
      var line := lines[lineNum];
      if stage != START && StartsWith(line, DIFF) {
        stage := START;
      }
      if stage == PATCH {
        if StartsWith(line, HUNK) {
          stage := PRE_PATCH;
        } else if |line| >= 1 && line[0] !in [' ', '-', '+'] && !StartsWith(line, CRLF)
                  && !StartsWith(line, NO_NEWLINE) && !binary.value {
          EndOfPatch();
          return;
        }
      }
      if stage == START {
        HandleStart(line);
      } else if stage == PRE_PATCH {
        HandlePrePatch(line);
      } else {
        HandlePatch(line);
      }
      lineNum := lineNum + 1;
    }

    /** The loop of __init__: every call of run moves forward and stays within the lines. */
    method Check()
      requires lineNum == 0 && Fields() == INIT
      modifies this
      ensures (Fields(), lineNum) == RunAll(lines, INIT, 0)
    {
      while lineNum < |lines| && formatOk
        invariant lineNum <= |lines| && Ready(Fields())
        invariant RunAll(lines, INIT, 0) == RunAll(lines, Fields(), lineNum)
        decreases |lines| - lineNum
      {
        Run();
      }
    }
  }
}
