/** FormatFile: five regular-expression substitutions, one after the other, and the single pass
    over lines that they amount to. A file is a string of characters below 256. */
module FormatDos {
  import opened Basics
  import opened PyText

  const CR := '\r'
  const LF := '\n'
  const TAB := '\t'

  predicate Blank(c: char)
  {
    c == ' ' || c == TAB
  }

  // ----- the five substitutions, each as a leftmost, non-overlapping scan

  /** ([^\r])\n  ->  \1\r\n */
  function CrBeforeLf(s: string): string
  {
    if |s| < 2 then s
    else if s[0] != CR && s[1] == LF then [s[0]] + CRLF + CrBeforeLf(s[2..])
    else [s[0]] + CrBeforeLf(s[1..])
  }

  /** ^\n  ->  \r\n  in multi-line mode: ^ holds at the start and after every LF. */
  function CrAtLineStart(s: string, atStart: bool): string
  {
    if s == "" then ""
    else if atStart && s[0] == LF then CRLF + CrAtLineStart(s[1..], true)
    else [s[0]] + CrAtLineStart(s[1..], s[0] == LF)
  }

  /** ([^\r\n])$  ->  \1\r\n : $ holds at the end and before a final LF. */
  function EndLastLine(s: string): string
  {
    var n := |s|;
    if n >= 1 && s[n - 1] != CR && s[n - 1] != LF then s + CRLF
    else if n >= 2 && s[n - 1] == LF && s[n - 2] != CR && s[n - 2] != LF then s[..n - 1] + CRLF + [LF]
    else s
  }

  function SkipBlanks(s: string): (t: string)
    ensures |t| <= |s|
    ensures t != "" ==> !Blank(t[0])
    ensures s != "" && !Blank(s[0]) ==> t == s
  {
    if s != "" && Blank(s[0]) then SkipBlanks(s[1..]) else s
  }

  /** [ \t]+(\r\n)  ->  \1 */
  function TrimBeforeCrlf(s: string): string
    decreases |s|
  {
    if s == "" then ""
    else if Blank(s[0]) && StartsWith(SkipBlanks(s), CRLF) then CRLF + TrimBeforeCrlf(SkipBlanks(s)[2..])
    else [s[0]] + TrimBeforeCrlf(s[1..])
  }

  /** \t  ->  two spaces */
  function ExpandTabs(s: string): (t: string)
  {
    if s == "" then ""
    else (if s[0] == TAB then "  " else [s[0]]) + ExpandTabs(s[1..])
  }

  function Format(content: string): string
  {
    ExpandTabs(TrimBeforeCrlf(EndLastLine(CrAtLineStart(CrBeforeLf(content), true))))
  }

  // ----- one pass over lines

  predicate AllBlank(s: string)
  {
    forall c <- s :: Blank(c)
  }

  /** Without trailing blanks. */
  function TrimRight(s: string): string
  {
    if AllBlank(s) then "" else [s[0]] + TrimRight(s[1..])
  }

  predicate EndsWithCr(s: string)
  {
    s != "" && s[|s| - 1] == CR
  }

  /** A line without the CR that belongs to its line end. */
  function Body(line: string): string
  {
    if EndsWithCr(line) then line[..|line| - 1] else line
  }

  function FirstLf(s: string): (i: nat)
    ensures i <= |s| && LF !in s[..i]
    ensures i < |s| ==> s[i] == LF
  {
    if s == "" || s[0] == LF then 0 else
      var k := FirstLf(s[1..]);
      assert s[..1 + k] == [s[0]] + s[1..][..k];
      1 + k
  }

  /** Each line loses its trailing blanks, has its tabs expanded and ends in CRLF; what follows
      the last LF becomes a line too, unless it is empty or ends in a CR of its own. */
  function FormatLines(s: string): string
    decreases |s|
  {
    var i := FirstLf(s);
    if i < |s| then ExpandTabs(TrimRight(Body(s[..i]))) + CRLF + FormatLines(s[i + 1..])
    else if s == "" || EndsWithCr(s) then ExpandTabs(s)
    else ExpandTabs(TrimRight(s)) + CRLF
  }

  // ----- the passes amount to the one pass

  /** Every LF that does not follow a CR gets one. */
  function AddCr(s: string, afterCr: bool): string
  {
    if s == "" then ""
    else if s[0] == LF && !afterCr then CRLF + AddCr(s[1..], false)
    else [s[0]] + AddCr(s[1..], s[0] == CR)
  }

  /** The first two substitutions together. */
  lemma {:induction false} TwoPassesAddCr(s: string, atStart: bool, afterCr: bool)
    requires atStart ==> !afterCr
    requires s != "" && s[0] == LF ==> atStart || afterCr
    ensures CrAtLineStart(CrBeforeLf(s), atStart) == AddCr(s, afterCr)
    decreases |s|
  {
    if |s| == 0 {
    } else if |s| == 1 {
      assert s == [s[0]] && s[1..] == "";
    } else if s[0] != CR && s[1] == LF {
      PairIsAdded(s, atStart, afterCr);
      TwoPassesAddCr(s[2..], true, false);
    } else {
      var t := CrBeforeLf(s);
      assert t[0] == s[0] && t[1..] == CrBeforeLf(s[1..]);
      TwoPassesAddCr(s[1..], s[0] == LF, s[0] == CR);
    }
  }

  lemma {:induction false} PairIsAdded(s: string, atStart: bool, afterCr: bool)
    requires |s| >= 2 && s[0] != CR && s[1] == LF
    requires atStart ==> !afterCr
    requires s[0] == LF ==> atStart || afterCr
    ensures var first := if s[0] == LF && atStart then CRLF else [s[0]];
            && CrAtLineStart(CrBeforeLf(s), atStart) == first + CRLF + CrAtLineStart(CrBeforeLf(s[2..]), true)
            && AddCr(s, afterCr) == first + CRLF + AddCr(s[2..], false)
  {
    var c, r := s[0], s[2..];
    var rest := CrBeforeLf(r);
    assert s == [c] + ([LF] + r);
    assert CrBeforeLf(s) == [c] + CRLF + rest;
    hide CrBeforeLf, CrAtLineStart, AddCr;
    CrlfAssoc([c], rest);
    LineStartCons(c, [CR] + ([LF] + rest), atStart);
    LineStartCons(CR, [LF] + rest, c == LF);
    LineStartCons(LF, rest, false);
    CrlfAssoc(if c == LF && atStart then CRLF else [c], CrAtLineStart(rest, true));
    if c == LF {
      AddCrToLf([LF] + r, afterCr);
    } else {
      AddCrToOther(c, [LF] + r, afterCr);
    }
    AddCrToLf(r, false);
    Assoc(if c == LF && atStart then CRLF else [c], CRLF, AddCr(r, false));
  }

  lemma CrlfAssoc(a: string, b: string)
    ensures a + CRLF + b == a + ([CR] + ([LF] + b))
  {
  }

  lemma {:induction false} LineStartCons(c: char, rest: string, atStart: bool)
    ensures CrAtLineStart([c] + rest, atStart) ==
            (if atStart && c == LF then CRLF else [c]) + CrAtLineStart(rest, c == LF)
  {
    var s := [c] + rest;
    assert s[0] == c && s[1..] == rest;
  }

  lemma {:induction false} AddCrToLf(rest: string, afterCr: bool)
    ensures AddCr([LF] + rest, afterCr) == (if afterCr then [LF] else CRLF) + AddCr(rest, false)
  {
    var s := [LF] + rest;
    assert s[0] == LF && s[1..] == rest;
  }

  lemma {:induction false} AddCrToOther(c: char, rest: string, afterCr: bool)
    requires c != LF
    ensures AddCr([c] + rest, afterCr) == [c] + AddCr(rest, c == CR)
  {
    var s := [c] + rest;
    assert s[0] == c && s[1..] == rest;
  }

  lemma LineCons(c: char, line: string, end: string, rest: string)
    ensures ([c] + line) + end + rest == [c] + (line + end + rest)
  {
  }

  lemma BodyCons(c: char, line: string)
    requires line != ""
    ensures Body([c] + line) == [c] + Body(line)
  {
  }

  lemma {:induction false} AddCrToLine(line: string, rest: string, afterCr: bool)
    requires LF !in line
    ensures AddCr(line + [LF] + rest, afterCr) ==
            (if line == "" then if afterCr then [LF] else CRLF else Body(line) + CRLF) + AddCr(rest, false)
  {
    hide AddCr;
    if line == "" {
      assert "" + [LF] + rest == [LF] + rest;
      AddCrToLf(rest, afterCr);
    } else {
      var c, l := line[0], line[1..];
      assert line == [c] + l;
      AddCrToLine(l, rest, c == CR);
      LineCons(c, l, [LF], rest);
      AddCrToOther(c, l + [LF] + rest, afterCr);
      JoinLine(c, l, AddCr(rest, false));
    }
  }

  /** The first character of a line in front of what the others become. */
  lemma {:induction false} JoinLine(c: char, l: string, tail: string)
    ensures [c] + ((if l == "" then if c == CR then [LF] else CRLF else Body(l) + CRLF) + tail) ==
            Body([c] + l) + CRLF + tail
  {
    if l == "" {
      assert [c] + l == [c] && Body([c]) == if c == CR then "" else [c];
    } else {
      BodyCons(c, l);
      LineCons(c, Body(l), CRLF, tail);
    }
  }

  lemma {:induction false} AddCrToTail(s: string, afterCr: bool)
    requires LF !in s
    ensures AddCr(s, afterCr) == s
  {
    if s != "" {
      assert s[0] in s;
      AddCrToTail(s[1..], s[0] == CR);
    }
  }

  lemma {:induction false} EndLastLineIsLocal(line: string, rest: string)
    ensures EndLastLine(line + CRLF + rest) == line + CRLF + EndLastLine(rest)
  {
    EndAfterLf(line + CRLF, rest);
  }

  lemma {:induction false} EndAfterLf(p: string, rest: string)
    requires |p| >= 2 && p[|p| - 1] == LF && p[|p| - 2] == CR
    ensures EndLastLine(p + rest) == p + EndLastLine(rest)
  {
    var s, n := p + rest, |rest|;
    if n >= 2 {
      assert s[|s| - 1] == rest[n - 1] && s[|s| - 2] == rest[n - 2];
      assert s[..|s| - 1] == p + rest[..n - 1];
      Assoc(p, rest, CRLF);
      Assoc(p, rest[..n - 1] + CRLF, [LF]);
      Assoc(p, rest[..n - 1], CRLF);
    } else if n == 1 {
      assert s[|s| - 1] == rest[0] && s[|s| - 2] == LF;
      Assoc(p, rest, CRLF);
    } else {
      assert s == p;
    }
  }

  lemma {:induction false} SkipBlanksOfLine(line: string, rest: string)
    requires LF !in line
    ensures StartsWith(SkipBlanks(line + CRLF + rest), CRLF) <==> AllBlank(line)
    ensures AllBlank(line) ==> SkipBlanks(line + CRLF + rest) == CRLF + rest
  {
    var s := line + CRLF + rest;
    if line == "" {
      assert s == CRLF + rest;
    } else if Blank(line[0]) {
      assert s[1..] == line[1..] + CRLF + rest;
      SkipBlanksOfLine(line[1..], rest);
      assert AllBlank(line) <==> AllBlank(line[1..]) by {
        assert line == [line[0]] + line[1..];
      }
    } else {
      assert line[0] in line;
      assert s[1] == if |line| > 1 then line[1] else CR;
      assert |line| > 1 ==> line[1] in line;
    }
  }

  lemma {:induction false} TrimLine(line: string, rest: string)
    requires LF !in line
    ensures TrimBeforeCrlf(line + CRLF + rest) == TrimRight(line) + CRLF + TrimBeforeCrlf(rest)
  {
    if line == "" {
      assert "" + CRLF + rest == CRLF + rest;
      TrimCrlf(rest);
    } else if AllBlank(line) {
      TrimBlankLine(line, rest);
    } else {
      var c, l := line[0], line[1..];
      assert line == [c] + l;
      SkipBlanksOfLine(line, rest);
      LineCons(c, l, CRLF, rest);
      TrimOther(c, l + CRLF + rest);
      TrimLine(l, rest);
      assert TrimRight(line) == [c] + TrimRight(l);
      hide TrimBeforeCrlf, TrimRight;
      LineCons(c, TrimRight(l), CRLF, TrimBeforeCrlf(rest));
    }
  }

  lemma {:induction false} TrimOther(c: char, rest: string)
    requires !(Blank(c) && StartsWith(SkipBlanks([c] + rest), CRLF))
    ensures TrimBeforeCrlf([c] + rest) == [c] + TrimBeforeCrlf(rest)
  {
    hide SkipBlanks;
    var s := [c] + rest;
    assert s[0] == c && s[1..] == rest;
  }

  lemma {:induction false} TrimCrlf(rest: string)
    ensures TrimBeforeCrlf(CRLF + rest) == CRLF + TrimBeforeCrlf(rest)
  {
    assert CRLF + rest == [CR] + ([LF] + rest);
    TrimOther(CR, [LF] + rest);
    TrimOther(LF, rest);
    hide TrimBeforeCrlf;
    assert [CR] + ([LF] + TrimBeforeCrlf(rest)) == CRLF + TrimBeforeCrlf(rest);
  }

  lemma {:induction false} TrimBlankLine(line: string, rest: string)
    requires line != "" && AllBlank(line) && LF !in line
    ensures TrimBeforeCrlf(line + CRLF + rest) == CRLF + TrimBeforeCrlf(rest)
    ensures TrimRight(line) + CRLF == CRLF
  {
    var s := line + CRLF + rest;
    SkipBlanksOfLine(line, rest);
    hide SkipBlanks;
    assert line[0] in line && s[0] == line[0];
    assert (CRLF + rest)[2..] == rest;
  }

  lemma {:induction false} TrimTail(s: string)
    requires LF !in s
    ensures TrimBeforeCrlf(s) == s
  {
    if s != "" {
      SkipBlanksKeepsOutLf(s);
      TrimTail(s[1..]);
    }
  }

  lemma {:induction false} SkipBlanksKeepsOutLf(s: string)
    requires LF !in s
    ensures LF !in SkipBlanks(s)
    ensures !StartsWith(SkipBlanks(s), CRLF)
  {
    if s != "" && Blank(s[0]) {
      SkipBlanksKeepsOutLf(s[1..]);
    } else {
      assert |s| >= 2 ==> s[1] in s;
    }
  }

  lemma {:induction false} ExpandAppend(a: string, b: string)
    ensures ExpandTabs(a + b) == ExpandTabs(a) + ExpandTabs(b)
  {
    if a == "" {
      assert a + b == b;
    } else {
      assert (a + b)[1..] == a[1..] + b;
      ExpandAppend(a[1..], b);
    }
  }

  lemma {:induction false} ExpandCrlf()
    ensures ExpandTabs(CRLF) == CRLF
  {
    assert CRLF[1..] == [LF] && [LF][1..] == "";
    assert ExpandTabs([LF]) == [LF] + ExpandTabs("");
  }

  lemma {:induction false} ExpandLine(a: string, b: string)
    ensures ExpandTabs(a + CRLF + b) == ExpandTabs(a) + CRLF + ExpandTabs(b)
  {
    ExpandAppend(a + CRLF, b);
    ExpandAppend(a, CRLF);
    ExpandCrlf();
  }

  /** The last three substitutions, applied to text whose every LF follows a CR. */
  function Finish(t: string): string
  {
    ExpandTabs(TrimBeforeCrlf(EndLastLine(t)))
  }

  lemma {:induction false} FinishLine(line: string, rest: string)
    requires LF !in line
    ensures Finish(line + CRLF + rest) == ExpandTabs(TrimRight(line)) + CRLF + Finish(rest)
  {
    EndLastLineIsLocal(line, rest);
    TrimLine(line, EndLastLine(rest));
    ExpandLine(TrimRight(line), TrimBeforeCrlf(EndLastLine(rest)));
  }

  lemma {:induction false} FinishTail(s: string)
    requires LF !in s
    ensures Finish(s) == if s == "" || EndsWithCr(s) then ExpandTabs(s) else ExpandTabs(TrimRight(s)) + CRLF
  {
    if s == "" || EndsWithCr(s) {
      TrimTail(s);
    } else {
      assert s[|s| - 1] in s;
      assert EndLastLine(s) == s + CRLF + "";
      TrimLine(s, "");
      ExpandLine(TrimRight(s), "");
    }
  }

  /** The five substitutions are the one pass over lines, on every string. */
  lemma {:induction false} FormatIsOnePass(s: string)
    ensures Format(s) == FormatLines(s)
  {
    TwoPassesAddCr(s, true, false);
    FinishIsOnePass(s);
  }

  lemma {:induction false} FinishIsOnePass(s: string)
    ensures Finish(AddCr(s, false)) == FormatLines(s)
    decreases |s|
  {
    hide Finish, TrimRight, ExpandTabs, AddCr;
    var i := FirstLf(s);
    if i < |s| {
      var line, rest := s[..i], s[i + 1..];
      assert s == line + [LF] + rest;
      AddCrToLine(line, rest, false);
      assert Body(line) + CRLF == if line == "" then CRLF else Body(line) + CRLF;
      assert LF !in Body(line);
      FinishLine(Body(line), AddCr(rest, false));
      FinishIsOnePass(rest);
    } else {
      assert s[..i] == s;
      AddCrToTail(s, false);
      FinishTail(s);
    }
  }

  // ----- what becomes of a line

  /** A tab becomes two spaces; everything else stays. */
  lemma {:induction false} TabIsTwoSpaces(a: string, b: string)
    ensures ExpandTabs(a + [TAB] + b) == ExpandTabs(a) + "  " + ExpandTabs(b)
    ensures TAB !in a ==> ExpandTabs(a) == a
  {
    ExpandAppend(a + [TAB], b);
    ExpandAppend(a, [TAB]);
    assert [TAB][1..] == "";
    assert ExpandTabs([TAB]) == "  " + ExpandTabs("") == "  ";
    ExpandedHasNoTab(a);
    hide ExpandTabs;
  }

  /** The blanks at the end of a text are trimmed. */
  lemma {:induction false} TrimRightOf(a: string, w: string)
    requires AllBlank(w) && (a == "" || !Blank(a[|a| - 1]))
    ensures TrimRight(a + w) == a
  {
    var s := a + w;
    if a == "" {
      assert s == w;
    } else {
      assert s[|a| - 1] == a[|a| - 1] && s[|a| - 1] in s;
      assert s[1..] == a[1..] + w && s[0] == a[0];
      TrimRightOf(a[1..], w);
      assert a == [a[0]] + a[1..];
    }
  }

  /** Any line of any file, whatever its line end: its text with tabs expanded, no blanks behind it,
      CRLF, and the rest formatted. */
  lemma {:induction false} LineIsFormatted(a: string, w: string, e: string, rest: string)
    requires LF !in a && (a == "" || !Blank(a[|a| - 1])) && AllBlank(w) && (e == "\n" || e == "\r\n")
    requires w == "" && e == "\n" ==> !EndsWithCr(a)
    ensures Format(a + w + e + rest) == ExpandTabs(a) + CRLF + Format(rest)
  {
    hide Format, ExpandTabs, TrimRight, FormatLines;
    var line := if e == "\n" then a + w else a + w + "\r";
    FormatIsOnePass(a + w + e + rest);
    FormatIsOnePass(rest);
    LineWithoutLf(a, w, e, rest);
    BodyOf(a, w, e);
    TrimRightOf(a, w);
    LineOfFormat(line, rest);
  }

  lemma {:induction false} LineWithoutLf(a: string, w: string, e: string, rest: string)
    requires LF !in a && AllBlank(w) && (e == "\n" || e == "\r\n")
    ensures var line := if e == "\n" then a + w else a + w + "\r";
            LF !in line && a + w + e + rest == line + [LF] + rest
  {
    assert LF !in w;
    if e == "\r\n" {
      assert e == "\r" + [LF];
      Assoc(a + w, "\r", [LF]);
    }
  }

  lemma {:induction false} BodyOf(a: string, w: string, e: string)
    requires AllBlank(w) && (e == "\n" || e == "\r\n") && (w == "" && e == "\n" ==> !EndsWithCr(a))
    ensures Body(if e == "\n" then a + w else a + w + "\r") == a + w
  {
    if e == "\n" {
      assert w != "" ==> (a + w)[|a + w| - 1] == w[|w| - 1] && w[|w| - 1] in w;
      assert w == "" ==> a + w == a;
    } else {
      var s := a + w + "\r";
      assert s[|s| - 1] == CR && s[..|s| - 1] == a + w;
    }
  }

  lemma {:induction false} LineOfFormat(line: string, rest: string)
    requires LF !in line
    ensures FormatLines(line + [LF] + rest) == ExpandTabs(TrimRight(Body(line))) + CRLF + FormatLines(rest)
  {
    var s := line + [LF] + rest;
    FirstLfIs(line, rest);
    hide FirstLf, ExpandTabs, TrimRight;
    assert s[..|line|] == line && s[|line| + 1..] == rest;
  }

  lemma {:induction false} FirstLfIs(line: string, rest: string)
    requires LF !in line
    ensures FirstLf(line + [LF] + rest) == |line|
  {
    var s := line + [LF] + rest;
    if line == "" {
      assert s[0] == LF;
    } else {
      assert line[0] in line;
      assert s[1..] == line[1..] + [LF] + rest;
      FirstLfIs(line[1..], rest);
    }
  }

  /** What follows the last LF becomes a line too, unless it is empty or ends in a CR. */
  lemma {:induction false} LastLineIsFormatted(a: string, w: string)
    requires LF !in a && (a == "" || !Blank(a[|a| - 1])) && AllBlank(w)
    ensures Format(a + w) == if a + w == "" || (w == "" && EndsWithCr(a)) then ExpandTabs(a + w) else ExpandTabs(a) + CRLF
  {
    hide Format, ExpandTabs, TrimRight;
    var s := a + w;
    FormatIsOnePass(s);
    TrimRightOf(a, w);
    assert forall c <- w :: Blank(c);
    assert w != "" ==> s[|s| - 1] == w[|w| - 1] && w[|w| - 1] in w;
    assert w == "" ==> s == a;
    NoLf(s);
    hide FirstLf;
  }

  lemma {:induction false} NoLf(s: string)
    requires LF !in s
    ensures FirstLf(s) == |s|
  {
    if s != "" {
      assert s[0] in s;
      NoLf(s[1..]);
    }
  }

  // ----- the normal form

  /** Every LF follows a CR, no blank precedes a CRLF, and there is no tab. */
  ghost predicate NormalForm(t: string)
  {
    && (forall i :: 0 <= i < |t| && t[i] == LF ==> i > 0 && t[i - 1] == CR)
    && (forall i :: 2 <= i < |t| && t[i] == LF ==> !Blank(t[i - 2]))
    && TAB !in t
  }

  /** A formatted line without its line end. */
  ghost predicate Tidy(s: string)
  {
    LF !in s && TAB !in s && (s != "" ==> !Blank(s[|s| - 1]))
  }

  lemma {:induction false} ExpandedHasNoTab(s: string)
    ensures TAB !in ExpandTabs(s)
    ensures LF in ExpandTabs(s) <==> LF in s
    ensures ExpandTabs(s) == "" <==> s == ""
    ensures s != "" ==> (Blank(ExpandTabs(s)[|ExpandTabs(s)| - 1]) <==> Blank(s[|s| - 1]))
    ensures EndsWithCr(ExpandTabs(s)) <==> EndsWithCr(s)
    ensures TAB !in s ==> ExpandTabs(s) == s
  {
    if s != "" {
      var first := if s[0] == TAB then "  " else [s[0]];
      ExpandedHasNoTab(s[1..]);
      assert s == [s[0]] + s[1..];
      assert ExpandTabs(s) == first + ExpandTabs(s[1..]);
      hide ExpandTabs;
      assert s[1..] == "" ==> s == [s[0]];
    }
  }

  lemma {:induction false} TrimmedIsPrefix(s: string)
    ensures TrimRight(s) <= s
    ensures TrimRight(s) != "" ==> !Blank(TrimRight(s)[|TrimRight(s)| - 1])
    ensures (s == "" || !Blank(s[|s| - 1])) ==> TrimRight(s) == s
    ensures AllBlank(s[|TrimRight(s)|..])
  {
    if !AllBlank(s) {
      TrimmedIsPrefix(s[1..]);
      assert s[|TrimRight(s)|..] == s[1..][|TrimRight(s[1..])|..];
    } else {
      assert s != "" ==> s[|s| - 1] in s;
    }
  }

  lemma {:induction false} FormattedLineIsTidy(line: string)
    requires LF !in line
    ensures Tidy(ExpandTabs(TrimRight(line)))
  {
    hide TrimRight, ExpandTabs;
    TrimmedIsPrefix(line);
    ExpandedHasNoTab(TrimRight(line));
  }

  lemma {:induction false} NormalLine(line: string, rest: string)
    requires Tidy(line) && NormalForm(rest)
    ensures NormalForm(line + CRLF + rest)
  {
    var t, n := line + CRLF + rest, |line| + 2;
    forall i | 0 <= i < |t| && t[i] == LF
      ensures i > 0 && t[i - 1] == CR && (i >= 2 ==> !Blank(t[i - 2]))
    {
      assert forall k :: 0 <= k < |line| ==> t[k] in line;
      if i >= n {
        assert rest[i - n] == LF;
        assert i - n >= 2 ==> t[i - 2] == rest[i - n - 2];
      }
    }
  }

  /** Formatting reaches the normal form on every string. */
  lemma {:induction false} FormatIsNormal(s: string)
    ensures NormalForm(Format(s))
  {
    FormatIsOnePass(s);
    FormatLinesIsNormal(s);
  }

  lemma {:induction false} FormatLinesIsNormal(s: string)
    ensures NormalForm(FormatLines(s))
    decreases |s|
  {
    hide TrimRight, ExpandTabs;
    var i := FirstLf(s);
    var line := s[..i];
    assert LF !in Body(line);
    if i < |s| {
      FormatLinesIsNormal(s[i + 1..]);
      FormattedLineIsTidy(Body(line));
      NormalLine(ExpandTabs(TrimRight(Body(line))), FormatLines(s[i + 1..]));
    } else {
      assert line == s;
      ExpandedHasNoTab(s);
      FormattedLineIsTidy(s);
      NormalLine(ExpandTabs(TrimRight(s)), "");
      assert ExpandTabs(TrimRight(s)) + CRLF + "" == ExpandTabs(TrimRight(s)) + CRLF;
    }
  }

  lemma {:induction false} FirstLfOfLine(line: string, rest: string)
    requires LF !in line
    ensures FirstLf(line + CRLF + rest) == |line| + 1
    ensures FirstLf(line) == |line|
  {
    var s := line + CRLF + rest;
    if line == "" {
      assert s[0] == CR && s[1] == LF && s[1..] == [LF] + rest;
    } else {
      assert line[0] in line;
      assert s[1..] == line[1..] + CRLF + rest;
      FirstLfOfLine(line[1..], rest);
    }
  }

  /** A tidy line is left as it is. */
  lemma {:induction false} TidyLineStays(line: string, rest: string)
    requires Tidy(line)
    ensures FormatLines(line + CRLF + rest) == line + CRLF + FormatLines(rest)
  {
    hide FirstLf;
    var s := line + CRLF + rest;
    FirstLfOfLine(line, rest);
    assert s[..|line| + 1] == line + [CR] && s[|line| + 2..] == rest;
    assert Body(line + [CR]) == line;
    TrimmedIsPrefix(line);
    ExpandedHasNoTab(line);
  }

  lemma {:induction false} NothingToFormat()
    ensures FormatLines("") == ""
  {
  }

  /** Formatting twice is formatting once. */
  lemma {:induction false} FormatIsIdempotent(s: string)
    ensures Format(Format(s)) == Format(s)
  {
    FormatIsOnePass(s);
    FormatIsOnePass(FormatLines(s));
    FormatLinesIsIdempotent(s);
  }

  lemma {:induction false} FormatLinesIsIdempotent(s: string)
    ensures FormatLines(FormatLines(s)) == FormatLines(s)
    decreases |s|
  {
    hide TrimRight, ExpandTabs, FirstLf;
    var i := FirstLf(s);
    var line := s[..i];
    assert LF !in Body(line);
    if i < |s| {
      FormattedLineIsTidy(Body(line));
      TidyLineStays(ExpandTabs(TrimRight(Body(line))), FormatLines(s[i + 1..]));
      FormatLinesIsIdempotent(s[i + 1..]);
    } else {
      assert line == s;
      if s == "" || EndsWithCr(s) {
        ExpandedHasNoTab(s);
        ExpandedHasNoTab(ExpandTabs(s));
        FirstLfOfLine(ExpandTabs(s), "");
      } else {
        FormattedLineIsTidy(s);
        var t := ExpandTabs(TrimRight(s));
        TidyLineStays(t, "");
        assert t + CRLF + "" == t + CRLF;
        NothingToFormat();
      }
    }
  }

  // ----- nothing but white space changes

  predicate White(c: char)
  {
    Blank(c) || c == CR || c == LF
  }

  function Ink(s: string): string
  {
    if s == "" then "" else (if White(s[0]) then "" else [s[0]]) + Ink(s[1..])
  }

  lemma {:induction false} InkAppend(a: string, b: string)
    ensures Ink(a + b) == Ink(a) + Ink(b)
  {
    if a == "" {
      assert a + b == b;
    } else {
      assert (a + b)[1..] == a[1..] + b;
      InkAppend(a[1..], b);
    }
  }

  lemma {:induction false} InkOfWhite(s: string)
    requires forall c <- s :: White(c)
    ensures Ink(s) == ""
  {
    if s != "" {
      assert s[0] in s;
      InkOfWhite(s[1..]);
    }
  }

  lemma {:induction false} InkOfExpanded(s: string)
    ensures Ink(ExpandTabs(s)) == Ink(s)
  {
    if s != "" {
      var first := if s[0] == TAB then "  " else [s[0]];
      InkAppend(first, ExpandTabs(s[1..]));
      InkOfExpanded(s[1..]);
      if s[0] == TAB {
        InkOfWhite(first);
      } else {
        assert Ink([s[0]]) == (if White(s[0]) then "" else [s[0]]) + Ink("");
      }
    }
  }

  lemma {:induction false} InkOfTrimmed(s: string)
    ensures Ink(TrimRight(s)) == Ink(s)
  {
    if AllBlank(s) {
      InkOfWhite(s);
    } else {
      InkOfTrimmed(s[1..]);
      var t := TrimRight(s);
      assert t[0] == s[0] && t[1..] == TrimRight(s[1..]);
    }
  }

  lemma {:induction false} InkOfLine(line: string)
    ensures Ink(ExpandTabs(TrimRight(Body(line)))) == Ink(line)
  {
    InkOfExpanded(TrimRight(Body(line)));
    InkOfTrimmed(Body(line));
    if EndsWithCr(line) {
      assert line == Body(line) + [CR];
      InkAppend(Body(line), [CR]);
      InkOfWhite([CR]);
    }
  }

  /** Input and output agree after deleting space, tab, CR and LF. */
  lemma {:induction false} FormatKeepsInk(s: string)
    ensures Ink(Format(s)) == Ink(s)
  {
    FormatIsOnePass(s);
    FormatLinesKeepsInk(s);
  }

  lemma {:induction false} FormatLinesKeepsInk(s: string)
    ensures Ink(FormatLines(s)) == Ink(s)
    decreases |s|
  {
    hide Ink, TrimRight, ExpandTabs;
    var i := FirstLf(s);
    InkOfWhite(CRLF);
    InkOfWhite([LF]);
    if i < |s| {
      var line, rest := s[..i], s[i + 1..];
      assert s == line + [LF] + rest;
      InkAppend(line + [LF], rest);
      InkAppend(line, [LF]);
      InkOfLine(line);
      var t := ExpandTabs(TrimRight(Body(line)));
      InkAppend(t + CRLF, FormatLines(rest));
      InkAppend(t, CRLF);
      FormatLinesKeepsInk(rest);
    } else if s == "" || EndsWithCr(s) {
      InkOfExpanded(s);
    } else {
      assert Body(s) == s;
      InkOfLine(s);
      InkAppend(ExpandTabs(TrimRight(s)), CRLF);
    }
  }
}
