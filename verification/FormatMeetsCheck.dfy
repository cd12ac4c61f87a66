/** The formatter and the checker agree: FormatDosFiles produces what PatchCheck accepts. */
module FormatMeetsCheck {
  import opened PyText
  import FormatDos
  import PatchCheck
  import PatchLines

  const CR := FormatDos.CR
  const LF := FormatDos.LF
  const TAB := FormatDos.TAB

  /** Printable ASCII, space, tab and the two line-end characters. */
  predicate SourceChar(c: char)
  {
    ' ' <= c <= '~' || c == TAB || c == CR || c == LF
  }

  predicate SourceText(s: string)
  {
    forall c <- s :: SourceChar(c)
  }

  predicate NoStrayCr(s: string)
  {
    forall i :: 0 <= i < |s| && s[i] == CR ==> i + 1 < |s| && s[i + 1] == LF
  }

  /** The characters at which str.splitlines breaks. */
  predicate IsBreak(c: char)
  {
    || '\n' <= c <= '\r' || 0x1C as char <= c <= 0x1E as char
    || c == 0x85 as char || c == 0x2028 as char || c == 0x2029 as char
  }

  function FirstBreak(s: string): (i: nat)
    ensures i <= |s|
    ensures forall k :: 0 <= k < i ==> !IsBreak(s[k])
    ensures i < |s| ==> IsBreak(s[i])
  {
    if s == "" || IsBreak(s[0]) then 0 else 1 + FirstBreak(s[1..])
  }

  /** Where the first line of `s` ends, its line end included. */
  function LineLength(s: string): (n: nat)
    requires s != ""
    ensures 0 < n <= |s|
  {
    var i := FirstBreak(s);
    if i == |s| then i
    else if s[i] == CR && i + 1 < |s| && s[i + 1] == LF then i + 2
    else i + 1
  }

  /** s.splitlines(True) */
  function SplitLines(s: string): (lines: seq<string>)
    decreases |s|
  {
    if s == "" then [] else [s[..LineLength(s)]] + SplitLines(s[LineLength(s)..])
  }

  /** The line-ending, tab and trailing-whitespace checks pass. */
  predicate Formatted(line: string)
  {
    var (body, eol) := PatchCheck.CutEndings(line, "", PatchCheck.LINE_ENDINGS);
    eol == CRLF && TAB !in body && |RStrip(body)| == |body|
  }

  predicate AllFormatted(lines: seq<string>)
  {
    forall l <- lines :: Formatted(l)
  }

  // ----- what lines are

  /** Every line of a text is a text without line-end characters and an ending. */
  lemma {:induction false} LineIsTextAndEnding(s: string) returns (b: string, e: string)
    requires s != ""
    ensures s[..LineLength(s)] == b + e && CR !in b && LF !in b && PatchLines.IsEnding(e)
  {
    var i, n := FirstBreak(s), LineLength(s);
    hide FirstBreak;
    assert forall k :: 0 <= k < i ==> s[k] != CR && s[k] != LF;
    if i < |s| && (s[i] == CR || s[i] == LF) {
      b, e := s[..i], s[i..n];
      assert s[..n] == b + e;
    } else {
      b, e := s[..n], "";
    }
  }

  /** So is every added line: what LineOkIff says covers each line that is checked. */
  lemma {:induction false} AddedLineIsTextAndEnding(s: string, line: string) returns (b: string, e: string)
    requires line in SplitLines(s) && StartsWith(line, "+")
    ensures line == "+" + b + e && CR !in b && LF !in b && PatchLines.IsEnding(e)
    decreases |s|
  {
    var n := LineLength(s);
    if line == s[..n] {
      var b', e' := LineIsTextAndEnding(s);
      assert b' != "" by {
        assert line[0] == '+';
        assert b' == "" ==> line == e';
      }
      assert b'[0] == line[0] && forall c <- b'[1..] :: c in b';
      b, e := b'[1..], e';
      assert b' == "+" + b;
    } else {
      b, e := AddedLineIsTextAndEnding(s[n..], line);
    }
  }

  // ----- lines of the output

  lemma {:induction false} FirstBreakOf(a: string, c: char, rest: string)
    requires forall x <- a :: !IsBreak(x)
    requires IsBreak(c)
    ensures FirstBreak(a + [c] + rest) == |a|
  {
    var s := a + [c] + rest;
    if a == "" {
      assert s[0] == c;
    } else {
      assert a[0] in a;
      assert s[1..] == a[1..] + [c] + rest;
      FirstBreakOf(a[1..], c, rest);
    }
  }

  lemma {:induction false} SplitCrlf(a: string, rest: string)
    requires forall x <- a :: !IsBreak(x)
    ensures SplitLines(a + CRLF + rest) == [a + CRLF] + SplitLines(rest)
  {
    var s := a + CRLF + rest;
    assert s == a + [CR] + ([LF] + rest);
    FirstBreakOf(a, CR, [LF] + rest);
    hide FirstBreak, IsBreak;
    assert s[|a|] == CR && s[|a| + 1] == LF;
    assert LineLength(s) == |a| + 2;
    SplitsAt(s, a + CRLF, rest);
  }

  lemma {:induction false} SplitsAt(s: string, first: string, rest: string)
    requires s == first + rest && s != "" && LineLength(s) == |first|
    ensures SplitLines(s) == [first] + SplitLines(rest)
  {
    hide LineLength;
    assert s[..|first|] == first && s[|first|..] == rest;
  }

  lemma {:induction false} SplitCr(a: string, rest: string)
    requires forall x <- a :: !IsBreak(x)
    requires rest == "" || rest[0] != LF
    ensures SplitLines(a + [CR] + rest) == [a + [CR]] + SplitLines(rest)
  {
    var s := a + [CR] + rest;
    FirstBreakOf(a, CR, rest);
    assert s[..|a| + 1] == a + [CR] && s[|a| + 1..] == rest;
  }

  /** The text before the first CR. */
  function BeforeCr(s: string): (a: string)
    ensures a <= s && CR !in a
    ensures CR in s ==> |a| < |s| && s[|a|] == CR
  {
    Before(s, CR)
  }

  /** A CR inside a line makes a badly ended line of its own. */
  lemma {:induction false} StrayCrIsFound(a: string, rest: string)
    requires CR in a && SourceText(a) && LF !in a
    requires rest == "" || rest[0] != LF
    ensures !AllFormatted(SplitLines(a + rest))
  {
    var b := BeforeCr(a);
    var after := a[|b| + 1..] + rest;
    assert a + rest == b + [CR] + after;
    assert after != "" ==> after[0] in a || after[0] == rest[0];
    assert forall x <- b :: x in a;
    SplitCr(b, after);
    PatchLines.CutExactly(b, "\r");
    assert (b + [CR]) in SplitLines(a + rest);
  }

  lemma {:induction false} TidyLineIsFormatted(a: string)
    requires FormatDos.Tidy(a) && SourceText(a) && CR !in a
    ensures Formatted(a + CRLF)
    ensures forall x <- a :: !IsBreak(x)
  {
    PatchLines.CutExactly(a, CRLF);
    assert a != "" ==> SourceChar(a[|a| - 1]);
  }

  // ----- what formatting does to the characters of a line

  lemma {:induction false} ExpandKeeps(s: string)
    ensures CR in FormatDos.ExpandTabs(s) <==> CR in s
    ensures SourceText(s) ==> SourceText(FormatDos.ExpandTabs(s))
  {
    if s != "" {
      ExpandKeeps(s[1..]);
      assert s == [s[0]] + s[1..];
      assert SourceText(s) ==> SourceText(s[1..]) && SourceChar(s[0]);
    }
  }

  lemma {:induction false} TrimKeeps(s: string)
    ensures CR in FormatDos.TrimRight(s) <==> CR in s
    ensures SourceText(s) ==> SourceText(FormatDos.TrimRight(s))
  {
    if !FormatDos.AllBlank(s) {
      TrimKeeps(s[1..]);
      assert s == [s[0]] + s[1..];
      assert SourceText(s) ==> SourceText(s[1..]) && SourceChar(s[0]);
    }
  }

  function Tidied(body: string): string
  {
    FormatDos.ExpandTabs(FormatDos.TrimRight(body))
  }

  lemma {:induction false} TidiedKeeps(body: string)
    requires SourceText(body) && LF !in body
    ensures SourceText(Tidied(body)) && FormatDos.Tidy(Tidied(body))
    ensures CR in Tidied(body) <==> CR in body
  {
    TrimKeeps(body);
    ExpandKeeps(FormatDos.TrimRight(body));
    FormatDos.FormattedLineIsTidy(body);
  }

  // ----- agreement

  /** A formatted line followed by more output. */
  lemma {:induction false} LineThenRest(body: string, rest: string)
    requires SourceText(body) && LF !in body
    ensures AllFormatted(SplitLines(Tidied(body) + CRLF + rest)) <==> CR !in body && AllFormatted(SplitLines(rest))
  {
    hide Formatted;
    var a := Tidied(body);
    TidiedKeeps(body);
    if CR in body {
      assert a + CRLF + rest == a + (CRLF + rest);
      StrayCrIsFound(a, CRLF + rest);
    } else {
      TidyLineIsFormatted(a);
      SplitCrlf(a, rest);
      var lines := SplitLines(rest);
      assert forall l :: l in [a + CRLF] + lines <==> l == a + CRLF || l in lines;
    }
  }

  lemma {:induction false} StrayCrByLine(line: string, rest: string)
    requires LF !in line
    ensures NoStrayCr(line + [LF] + rest) <==> CR !in FormatDos.Body(line) && NoStrayCr(rest)
  {
    var s, b, n := line + [LF] + rest, FormatDos.Body(line), |line| + 1;
    if NoStrayCr(s) {
      forall i | 0 <= i < |rest| && rest[i] == CR
        ensures i + 1 < |rest| && rest[i + 1] == LF
      {
        assert s[n + i] == CR && s[n + i + 1] == LF;
      }
      forall i | 0 <= i < |b|
        ensures b[i] != CR
      {
        assert s[i] == b[i] && (i + 1 < |line| ==> s[i + 1] == line[i + 1] && line[i + 1] in line);
      }
    }
    if CR !in b && NoStrayCr(rest) {
      forall i | 0 <= i < |s| && s[i] == CR
        ensures i + 1 < |s| && s[i + 1] == LF
      {
        assert forall k :: 0 <= k < |b| ==> s[k] in b;
        if i >= n {
          assert rest[i - n] == CR;
        }
      }
    }
  }

  /** For every source text, each line of the formatted file passes the line-ending, tab and
      trailing-whitespace checks if and only if the file had no CR outside a CRLF. */
  lemma {:induction false} FormatPassesIff(s: string)
    requires SourceText(s)
    ensures AllFormatted(SplitLines(FormatDos.Format(s))) <==> NoStrayCr(s)
  {
    FormatDos.FormatIsOnePass(s);
    FormatLinesPassesIff(s);
  }

  lemma {:induction false} FormatLinesPassesIff(s: string)
    requires SourceText(s)
    ensures AllFormatted(SplitLines(FormatDos.FormatLines(s))) <==> NoStrayCr(s)
    decreases |s|
  {
    hide Formatted, SplitLines, AllFormatted, NoStrayCr;
    var i := FormatDos.FirstLf(s);
    if i < |s| {
      var line, rest := s[..i], s[i + 1..];
      assert s == line + [LF] + rest;
      StrayCrByLine(line, rest);
      assert LF !in FormatDos.Body(line) && SourceText(FormatDos.Body(line)) && SourceText(rest);
      LineThenRest(FormatDos.Body(line), FormatDos.FormatLines(rest));
      FormatLinesPassesIff(rest);
    } else {
      assert s[..i] == s;
      LastLinePassesIff(s);
    }
  }

  lemma {:induction false} LastLinePassesIff(s: string)
    requires SourceText(s) && LF !in s
    ensures AllFormatted(SplitLines(FormatDos.FormatLines(s))) <==> NoStrayCr(s)
  {
    if CR in s {
      var k :| 0 <= k < |s| && s[k] == CR;
      assert k + 1 < |s| ==> s[k + 1] in s;
    }
    FormatDos.FirstLfOfLine(s, "");
    if s == "" {
    } else if FormatDos.EndsWithCr(s) {
      assert s[|s| - 1] in s;
      ExpandKeeps(s);
      FormatDos.ExpandedHasNoTab(s);
      var t := FormatDos.ExpandTabs(s);
      StrayCrIsFound(t, "");
      assert t + "" == t;
    } else {
      LineThenRest(s, "");
      assert Tidied(s) + CRLF + "" == Tidied(s) + CRLF;
    }
  }

  /** So the only complaint the checker can have about a line of a formatted file without stray
      CRs, under any flags, is the use of an old debug level. */
  lemma {:induction false} OnlyOldDebugIsLeft(s: string, line: string, crlf: bool, noTabs: bool)
    requires SourceText(s) && NoStrayCr(s) && line in SplitLines(FormatDos.Format(s))
    ensures PatchCheck.LineOk(line, crlf, noTabs) <==>
            !PatchCheck.OldDebug(PatchCheck.CutEndings(line, "", PatchCheck.LINE_ENDINGS).0)
  {
    FormatPassesIff(s);
    hide PatchCheck.OldDebug;
    assert Formatted(line);
  }
}
