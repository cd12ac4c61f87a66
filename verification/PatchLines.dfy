/** What GitDiffCheck says about an added line, by what the line consists of. */
module PatchLines {
  import opened PyText
  import opened PatchCheck

  // ----- the line ending

  /** One turn of the suffix loop. */
  function CutStep(p: (string, string), e: string): (string, string)
  {
    if EndsWith(p.0, e) then (p.0[..|p.0| - |e|], e) else p
  }

  lemma {:induction false} CutOne(p: (string, string), e: string, rest: seq<string>)
    requires e != ""
    ensures CutEndings(p.0, p.1, [e] + rest) == CutEndings(CutStep(p, e).0, CutStep(p, e).1, rest)
    ensures CutEndings(p.0, p.1, []) == p
  {
    assert ([e] + rest)[1..] == rest;
  }

  /** The loop is its four turns. */
  lemma {:induction false} CutUnfolds(line: string)
    ensures CutEndings(line, "", LINE_ENDINGS) ==
            CutStep(CutStep(CutStep(CutStep((line, ""), "\r\n"), "\n\r"), "\n"), "\r")
  {
    var p0 := (line, "");
    var p1 := CutStep(p0, "\r\n");
    var p2 := CutStep(p1, "\n\r");
    var p3 := CutStep(p2, "\n");
    var p4 := CutStep(p3, "\r");
    hide CutStep, CutEndings;
    assert LINE_ENDINGS == ["\r\n"] + ["\n\r", "\n", "\r"];
    CutOne(p0, "\r\n", ["\n\r", "\n", "\r"]);
    assert ["\n\r", "\n", "\r"] == ["\n\r"] + ["\n", "\r"];
    CutOne(p1, "\n\r", ["\n", "\r"]);
    assert ["\n", "\r"] == ["\n"] + ["\r"];
    CutOne(p2, "\n", ["\r"]);
    assert ["\r"] == ["\r"] + [];
    CutOne(p3, "\r", []);
    CutOne(p4, "\r", []);
  }

  /** A line does not end in `e` when they differ at a position from the end. */
  lemma {:induction false} EndingDiffers(line: string, e: string, i: nat)
    requires 1 <= i <= |e| && (i <= |line| ==> line[|line| - i] != e[|e| - i])
    ensures !EndsWith(line, e)
  {
    if |e| <= |line| {
      assert line[|line| - |e|..][|e| - i] == line[|line| - i];
    }
  }

  lemma {:induction false} StepCuts(b: string, eol: string, e: string)
    ensures CutStep((b + e, eol), e) == (b, e)
  {
    assert (b + e)[|b|..] == e && (b + e)[..|b|] == b;
  }

  lemma {:induction false} StepPasses(line: string, eol: string, e: string, i: nat)
    requires 1 <= i <= |e| && (i <= |line| ==> line[|line| - i] != e[|e| - i])
    ensures CutStep((line, eol), e) == (line, eol)
  {
    EndingDiffers(line, e, i);
  }

  predicate IsEnding(e: string)
  {
    e == "" || e == "\r\n" || e == "\n\r" || e == "\n" || e == "\r"
  }

  /** A text without line-end characters, and its last character seen from the end. */
  lemma {:induction false} NoneLeft(b: string, eol: string, e: string)
    requires '\r' !in b && '\n' !in b && (e == "\r\n" || e == "\n\r" || e == "\n" || e == "\r")
    ensures CutStep((b, eol), e) == (b, eol)
  {
    assert b != "" ==> b[|b| - 1] in b;
    StepPasses(b, eol, e, 1);
  }

  /** A line from str.splitlines has its line-end characters at its end: they are cut off whole, and
      reported as the ending. */
  lemma {:induction false} CutExactly(b: string, e: string)
    requires '\r' !in b && '\n' !in b && IsEnding(e)
    ensures CutEndings(b + e, "", LINE_ENDINGS) == (b, e)
  {
    CutUnfolds(b + e);
    hide CutStep, CutEndings;
    NoneLeft(b, e, "\n\r");
    NoneLeft(b, e, "\n");
    NoneLeft(b, e, "\r");
    if e == "" {
      assert b + e == b;
      NoneLeft(b, "", "\r\n");
    } else {
      StepCuts(b, "", e);
      EarlierPass(b, e);
    }
  }

  /** The endings before the right one do not match. */
  lemma {:induction false} EarlierPass(b: string, e: string)
    requires '\r' !in b && '\n' !in b
    ensures e == "\n\r" || e == "\n" || e == "\r" ==> CutStep((b + e, ""), "\r\n") == (b + e, "")
    ensures e == "\n" || e == "\r" ==> CutStep((b + e, ""), "\n\r") == (b + e, "")
    ensures e == "\r" ==> CutStep((b + e, ""), "\n") == (b + e, "")
  {
    var line := b + e;
    assert |e| > 0 ==> line[|line| - 1] == e[|e| - 1];
    assert |b| > 0 ==> line[|b| - 1] == b[|b| - 1] && b[|b| - 1] in b;
    hide CutStep;
    if e == "\n\r" {
      StepPasses(line, "", "\r\n", 1);
    } else if e == "\n" {
      StepPasses(line, "", "\r\n", 2);
      StepPasses(line, "", "\n\r", 1);
    } else if e == "\r" {
      StepPasses(line, "", "\r\n", 1);
      StepPasses(line, "", "\n\r", 2);
      StepPasses(line, "", "\n", 1);
    }
  }

  /** The loop goes on after a match: of two endings, the one that is cut off last is reported. */
  lemma {:induction false} CutGoesOn(b: string)
    requires '\r' !in b && '\n' !in b
    ensures CutEndings(b + "\r" + "\r\n", "", LINE_ENDINGS) == (b, "\r")
    ensures CutEndings(b + "\n" + "\r\n", "", LINE_ENDINGS) == (b, "\n")
  {
    hide CutStep, CutEndings;
    CutUnfolds(b + "\r" + "\r\n");
    CutUnfolds(b + "\n" + "\r\n");
    StepCuts(b + "\r", "", "\r\n");
    StepCuts(b + "\n", "", "\r\n");
    assert b != "" ==> b[|b| - 1] in b;
    StepPasses(b + "\r", "\r\n", "\n\r", 2);
    StepPasses(b + "\r", "\r\n", "\n", 1);
    StepPasses(b + "\n", "\r\n", "\n\r", 1);
    StepCuts(b, "\r\n", "\r");
    StepCuts(b, "\r\n", "\n");
    NoneLeft(b, "\n", "\r");
  }

  // ----- old debug levels

  predicate IsUpper(c: char)
  {
    'A' <= c <= 'Z' || c == '_'
  }

  /** A level name: one or more capital letters and underscores. */
  predicate IsName(s: string)
  {
    s != "" && forall c <- s :: IsUpper(c)
  }

  /** DEBUG_name, white space, '|', white space. */
  datatype Item = Item(name: string, w: string, v: string)

  function ItemText(i: Item): string
  {
    "DEBUG_" + (i.name + (i.w + ("|" + i.v)))
  }

  predicate ItemOk(i: Item)
  {
    IsName(i.name) && AllSpace(i.w) && AllSpace(i.v)
  }

  /** A call of DEBUG whose levels end in an EFI_D_ name. */
  datatype OldCall = OldCall(w: string, v: string, u: string, items: seq<Item>, level: string)

  function ItemsText(items: seq<Item>): string
  {
    if items == [] then "" else ItemText(items[0]) + ItemsText(items[1..])
  }

  function LevelsText(items: seq<Item>, level: string): string
  {
    ItemsText(items) + ("EFI_D_" + level)
  }

  function CallText(c: OldCall): string
  {
    "DEBUG" + (c.w + ("(" + (c.v + ("(" + (c.u + LevelsText(c.items, c.level))))))
  }

  ghost predicate CallOk(c: OldCall)
  {
    && AllSpace(c.w) && AllSpace(c.v) && AllSpace(c.u)
    && (forall i <- c.items :: ItemOk(i)) && IsName(c.level)
  }

  /** The text has such a call at some place. */
  ghost predicate HasOldCall(s: string)
  {
    exists c :: CallOk(c) && HasPart(s, CallText(c))
  }

  lemma {:induction false} UpperOf(name: string, rest: string)
    requires (forall c <- name :: IsUpper(c)) && (rest == "" || !IsUpper(rest[0]))
    ensures Upper(name + rest) == |name|
  {
    if name == "" {
      assert name + rest == rest;
    } else {
      assert name[0] in name && (name + rest)[1..] == name[1..] + rest;
      assert forall c <- name[1..] :: c in name;
      UpperOf(name[1..], rest);
    }
  }

  lemma {:induction false} UpperLeaves(s: string)
    ensures forall c <- s[..Upper(s)] :: IsUpper(c)
  {
    if s != "" && IsUpper(s[0]) {
      UpperLeaves(s[1..]);
      var n := Upper(s[1..]);
      assert s[..n + 1] == [s[0]] + s[1..][..n];
    }
  }

  lemma {:induction false} UpperAtLeast(name: string, rest: string)
    requires IsName(name)
    ensures Upper(name + rest) > 0
  {
    assert (name + rest)[0] == name[0] && name[0] in name;
  }

  /** The first item of a list of levels is passed. */
  lemma {:induction false} ItemIsPassed(i: Item, rest: string)
    requires ItemOk(i) && rest != "" && !IsSpace(rest[0])
    ensures OldLevels(ItemText(i) + rest) == OldLevels(rest)
  {
    var s := ItemText(i) + rest;
    var bar := "|" + (i.v + rest);
    assert s == "DEBUG_" + (i.name + (i.w + bar));
    assert s[6..] == i.name + (i.w + bar);
    NotUpper(i.w, bar);
    UpperOf(i.name, i.w + bar);
    assert s[6..][|i.name|..] == i.w + bar;
    LStripOf(i.w, bar);
    assert bar[1..] == i.v + rest;
    LStripOf(i.v, rest);
    hide LStrip, IsSpace, Upper;
  }

  lemma {:induction false} NotUpper(w: string, bar: string)
    requires AllSpace(w) && bar != "" && bar[0] == '|'
    ensures !IsUpper((w + bar)[0]) && !IsSpace(bar[0])
  {
    if w != "" {
      assert w[0] in w && (w + bar)[0] == w[0];
    }
  }

  lemma {:induction false} LevelsBegin(items: seq<Item>, level: string, y: string)
    ensures var s := LevelsText(items, level) + y;
            s != "" && !IsSpace(s[0])
  {
    if items == [] {
      assert (LevelsText(items, level) + y)[0] == 'E';
    } else {
      assert (LevelsText(items, level) + y)[0] == 'D';
    }
  }

  lemma {:induction false} LevelsCons(items: seq<Item>, level: string, y: string)
    requires items != []
    ensures LevelsText(items, level) + y == ItemText(items[0]) + (LevelsText(items[1..], level) + y)
  {
    var a, b, c := ItemText(items[0]), ItemsText(items[1..]), "EFI_D_" + level;
    hide ItemText;
    assert (a + b) + c + y == a + (b + c + y);
  }

  /** Levels of the grammar are recognised. */
  lemma {:induction false} LevelsAreOld(items: seq<Item>, level: string, y: string)
    requires (forall i <- items :: ItemOk(i)) && IsName(level)
    ensures OldLevels(LevelsText(items, level) + y)
    decreases |items|
  {
    if items == [] {
      var s := LevelsText(items, level) + y;
      assert s == "EFI_D_" + (level + y) && s[6..] == level + y;
      PrefixesDiffer(s, "EFI_D_", "DEBUG_", 0);
      UpperAtLeast(level, y);
    } else {
      assert items[0] in items && forall i <- items[1..] :: i in items;
      LevelsAreOld(items[1..], level, y);
      LevelsCons(items, level, y);
      LevelsBegin(items[1..], level, y);
      hide OldLevels, LevelsText, ItemText;
      ItemIsPassed(items[0], LevelsText(items[1..], level) + y);
    }
  }

  /** What is recognised as levels is in the grammar. */
  lemma {:induction false} OldLevelsAre(s: string) returns (items: seq<Item>, level: string, y: string)
    requires OldLevels(s)
    ensures (forall i <- items :: ItemOk(i)) && IsName(level) && s == LevelsText(items, level) + y
    decreases |s|
  {
    if StartsWith(s, "DEBUG_") {
      var i, rest := FirstItem(s);
      hide OldLevels, ItemText, LevelsText, ItemOk, IsName;
      var items', level', y' := OldLevelsAre(rest);
      items, level, y := [i] + items', level', y';
      assert items[0] == i && items[1..] == items';
      LevelsCons(items, level, y);
    } else {
      items := [];
      level, y := LastLevel(s);
    }
  }

  lemma {:induction false} LastLevel(s: string) returns (level: string, y: string)
    requires OldLevels(s) && !StartsWith(s, "DEBUG_")
    ensures IsName(level) && s == LevelsText([], level) + y
  {
    var t := s[6..];
    var n := Upper(t);
    UpperLeaves(t);
    hide Upper, OldLevels;
    level, y := t[..n], t[n..];
    SplitOff("EFI_D_", s);
    SplitAfter(t, n);
    assert "" + ("EFI_D_" + level) + y == "EFI_D_" + (level + y);
  }

  lemma {:induction false} FirstItem(s: string) returns (i: Item, rest: string)
    requires OldLevels(s) && StartsWith(s, "DEBUG_")
    ensures ItemOk(i) && s == ItemText(i) + rest && OldLevels(rest) && |rest| < |s|
  {
    var tail := s[6..];
    var n := Upper(tail);
    var bar := LStrip(tail[n..]);
    rest := LStrip(bar[1..]);
    UpperLeaves(tail);
    hide LStrip, Upper, IsSpace, OldLevels;
    var w := LStripLeaves(tail[n..]);
    var v := LStripLeaves(bar[1..]);
    hide AllSpace;
    i := Item(tail[..n], w, v);
    SplitOff("DEBUG_", s);
    SplitAfter(tail, n);
    SplitOff("|", bar);
    ItemAssoc(tail[..n], w, v, rest);
  }

  lemma SplitOff(p: string, s: string)
    requires p <= s
    ensures s == p + s[|p|..]
  {
  }

  lemma SplitAfter(s: string, n: nat)
    requires n <= |s|
    ensures s == s[..n] + s[n..]
  {
  }

  lemma ItemAssoc(name: string, w: string, v: string, rest: string)
    ensures "DEBUG_" + (name + (w + ("|" + (v + rest)))) == "DEBUG_" + (name + (w + ("|" + v))) + rest
  {
  }

  /** A call of the grammar is recognised where it stands. */
  lemma {:induction false} CallIsOld(c: OldCall, y: string)
    requires CallOk(c)
    ensures OldDebugHere(CallText(c) + y)
  {
    hide LevelsText, OldLevels, LStrip, ItemOk, IsName;
    var p := LevelsText(c.items, c.level);
    LevelsAreOld(c.items, c.level, y);
    LevelsBegin(c.items, c.level, y);
    CallAssoc(c.w, c.v, c.u, p, y);
    var l := p + y;
    var b := "(" + (c.u + l);
    var a := "(" + (c.v + b);
    LStripOf(c.w, a);
    LStripOf(c.v, b);
    LStripOf(c.u, l);
    Behind("DEBUG", c.w + a);
    Behind("(", c.v + b);
    Behind("(", c.u + l);
  }

  lemma Behind(p: string, s: string)
    ensures p <= p + s && (p + s)[|p|..] == s
  {
  }

  /** What is recognised is a call of the grammar. */
  lemma {:induction false} OldDebugIs(s: string) returns (c: OldCall, y: string)
    requires OldDebugHere(s)
    ensures CallOk(c) && s == CallText(c) + y
  {
    hide LStrip, OldLevels, LevelsText, IsSpace;
    var t := s[5..];
    var a := LStrip(t);
    var b := LStrip(a[1..]);
    var l := LStrip(b[1..]);
    var w := LStripLeaves(t);
    var v := LStripLeaves(a[1..]);
    var u := LStripLeaves(b[1..]);
    var items, level, y' := OldLevelsAre(l);
    y := y';
    c := OldCall(w, v, u, items, level);
    hide AllSpace, ItemOk, IsName;
    SplitOff("DEBUG", s);
    SplitOff("(", a);
    SplitOff("(", b);
    CallAssoc(w, v, u, LevelsText(items, level), y);
  }

  lemma CallAssoc(w: string, v: string, u: string, p: string, y: string)
    ensures "DEBUG" + (w + ("(" + (v + ("(" + (u + (p + y)))))) == "DEBUG" + (w + ("(" + (v + ("(" + (u + p))))) + y
  {
  }

  /** The regular expression for old debug levels finds exactly the calls of the grammar. */
  lemma {:induction false} OldDebugIff(s: string)
    ensures OldDebug(s) <==> HasOldCall(s)
  {
    hide OldDebugHere, CallText, CallOk;
    if OldDebugHere(s) {
      var c, y := OldDebugIs(s);
      assert s == "" + CallText(c) + y;
      assert HasPart(s, CallText(c));
    } else if s != "" {
      OldDebugIff(s[1..]);
      if HasOldCall(s[1..]) {
        var c :| CallOk(c) && HasPart(s[1..], CallText(c));
        PartIsInWhole(s, CallText(c));
      }
      if HasOldCall(s) {
        var c :| CallOk(c) && HasPart(s, CallText(c));
        NotAtFront(s, c);
        PartIsLater(s, CallText(c));
      }
    } else {
      forall c | CallOk(c)
        ensures !HasPart(s, CallText(c))
      {
        NotAtFront(s, c);
      }
    }
  }

  lemma {:induction false} PartIsInWhole(s: string, p: string)
    requires s != "" && HasPart(s[1..], p)
    ensures HasPart(s, p)
  {
    var x, y :| s[1..] == x + p + y;
    assert s == ([s[0]] + x) + p + y;
  }

  lemma {:induction false} NotAtFront(s: string, c: OldCall)
    requires CallOk(c) && !OldDebugHere(s)
    ensures !(CallText(c) <= s) && CallText(c) != ""
  {
    if CallText(c) <= s {
      var y := s[|CallText(c)|..];
      assert s == CallText(c) + y;
      CallIsOld(c, y);
    }
  }

  // ----- the four checks

  /** Exactly the lines that check_added_line does not complain about, by what they consist of: every
      line that str.splitlines gives is such a text and ending. */
  lemma {:induction false} LineOkIff(b: string, e: string, crlf: bool, noTabs: bool)
    requires '\r' !in b && '\n' !in b && IsEnding(e)
    ensures LineOk(b + e, crlf, noTabs) <==>
            && (e == "\r\n" || !crlf || HasPart(b, "Subproject commit"))
            && ('\t' !in b || !noTabs)
            && (b == "" || !IsSpace(b[|b| - 1]))
            && !HasOldCall(b)
  {
    CutExactly(b, e);
    ContainsIff(b, "Subproject commit");
    OldDebugIff(b);
    hide CutEndings, Contains, OldDebug, HasOldCall, IsSpace, HasPart;
  }
}
