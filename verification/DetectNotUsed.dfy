/** DetectNotUsedItem: comment stripping by removal from a list that is being walked backwards,
    and the groups of comment lines that are deleted together with an unused item. */
module DetectNotUsed {
  import opened Basics
  import opened PyText

  predicate IsComment(line: string)
  {
    StartsWith(Strip(line), "#")
  }

  predicate IsBlank(line: string)
  {
    line == "\n" || line == "\r\n"
  }

  /** A comment: white space, then '#'. */
  lemma {:induction false} CommentIff(line: string)
    ensures IsComment(line) <==> exists w, rest :: AllSpace(w) && line == w + "#" + rest
  {
    var w := LStripLeaves(line);
    var t := LStrip(line);
    hide LStrip, IsSpace;
    if t != "" {
      assert RStrip(t) != "" ==> RStrip(t)[0] == t[0];
    }
    if IsComment(line) {
      assert t == "#" + t[1..];
      assert line == w + "#" + t[1..];
    }
    forall v, rest | AllSpace(v) && line == v + "#" + rest
      ensures IsComment(line)
    {
      CommentIsSeen(v, rest);
    }
  }

  lemma {:induction false} CommentIsSeen(w: string, rest: string)
    requires AllSpace(w)
    ensures IsComment(w + "#" + rest)
  {
    var t := "#" + rest;
    assert w + "#" + rest == w + t;
    LStripOf(w, t);
    var r := RStrip(t);
    hide LStrip;
    RStripKeepsFirst(t);
  }

  lemma {:induction false} RStripKeepsFirst(t: string)
    requires t != "" && !IsSpace(t[0])
    ensures RStrip(t) != "" && RStrip(t)[0] == t[0]
  {
    hide IsSpace;
    if IsSpace(t[|t| - 1]) {
      RStripKeepsFirst(t[..|t| - 1]);
    }
  }

  // ----- ParseDscFdfInfContent

  predicate Dropped(line: string)
  {
    IsComment(line) || IsBlank(line)
  }

  function Stripped(line: string): string
  {
    if '#' in line then Strip(Before(line, '#')) else Strip(line)
  }

  /** The lines that are neither comments nor blank, in order, without trailing comments. */
  function Kept(lines: seq<string>): seq<string>
  {
    if lines == [] then []
    else (if Dropped(lines[0]) then [] else [Stripped(lines[0])]) + Kept(lines[1..])
  }

  /** A kept line: what stands before its first '#', without the white space at both ends. */
  lemma {:induction false} StrippedIs(w: string, text: string, v: string, comment: string)
    requires AllSpace(w) && AllSpace(v) && '#' !in text
    requires text == "" || (!IsSpace(text[0]) && !IsSpace(text[|text| - 1]))
    ensures Stripped(w + text + v) == text && Stripped(w + text + v + "#" + comment) == text
  {
    var s := w + text + v;
    assert '#' !in w && '#' !in v by {
      assert !IsSpace('#');
    }
    assert '#' !in s;
    StripOf(w, text, v);
    hide Strip, IsSpace;
    BeforeOf(s, '#', comment);
    assert '#' in s + ['#'] + comment;
  }

  lemma {:induction false} KeptAppend(a: seq<string>, b: seq<string>)
    ensures Kept(a + b) == Kept(a) + Kept(b)
  {
    hide Dropped, Stripped;
    if a == [] {
      assert a + b == b;
    } else {
      assert (a + b)[1..] == a[1..] + b;
      KeptAppend(a[1..], b);
    }
  }

  lemma {:induction false} KeptOne(line: string)
    ensures Kept([line]) == if Dropped(line) then [] else [Stripped(line)]
  {
    assert Kept([line][1..]) == [];
  }

  /** One line of a file: nothing is kept of an empty line or of a comment; of any other, the text before
      its first '#'. */
  lemma {:induction false} LineIsKept(w: string, text: string, v: string, rest: string)
    requires AllSpace(w) && AllSpace(v) && '#' !in text && (rest == "" || rest[0] == '#')
    requires text == "" || (!IsSpace(text[0]) && !IsSpace(text[|text| - 1]))
    ensures var line := w + text + v + rest;
            Kept([line]) == if line == "\n" || line == "\r\n" || (text == "" && rest != "") then [] else [text]
  {
    hide Kept, Stripped, IsComment, IsSpace, AllSpace;
    var line, p := w + text + v + rest, w + text + v;
    KeptOne(line);
    if rest == "" {
      assert p + rest == p;
      StrippedIs(w, text, v, "");
    } else {
      assert rest == "#" + rest[1..];
      Assoc(p, "#", rest[1..]);
      StrippedIs(w, text, v, rest[1..]);
    }
    CommentOf(w, text, v, rest);
  }

  lemma {:induction false} CommentOf(w: string, text: string, v: string, rest: string)
    requires AllSpace(w) && AllSpace(v) && '#' !in text && (rest == "" || rest[0] == '#')
    requires text == "" || (!IsSpace(text[0]) && !IsSpace(text[|text| - 1]))
    ensures IsComment(w + text + v + rest) <==> text == "" && rest != ""
  {
    var line := w + text + v + rest;
    if text != "" {
      assert line == w + (text + v + rest);
      LStripOf(w, text + v + rest);
      RStripKeepsFirst(text + v + rest);
      hide LStrip, RStrip, IsSpace;
      assert text[0] in text;
    } else if rest != "" {
      assert line == (w + v) + "#" + rest[1..];
      assert AllSpace(w + v);
      CommentIsSeen(w + v, rest[1..]);
    } else {
      assert line == w + v;
      StripOf(w, "", v);
      assert w + "" + v == w + v;
    }
  }

  /** list.remove: without the first element equal to `x`. */
  function Remove(lines: seq<string>, x: string): (r: seq<string>)
    requires x in lines
    ensures |r| == |lines| - 1
  {
    if lines[0] == x then lines[1..] else [lines[0]] + Remove(lines[1..], x)
  }

  /** Where the first element equal to `x` is. */
  function FirstAt(lines: seq<string>, x: string): (j: nat)
    requires x in lines
    ensures j < |lines| && lines[j] == x
    ensures forall k :: 0 <= k < j ==> lines[k] != x
  {
    if lines[0] == x then 0 else 1 + FirstAt(lines[1..], x)
  }

  lemma {:induction false} RemoveCutsOut(lines: seq<string>, x: string)
    requires x in lines
    ensures Remove(lines, x) == lines[..FirstAt(lines, x)] + lines[FirstAt(lines, x) + 1..]
  {
    if lines[0] != x {
      RemoveCutsOut(lines[1..], x);
      var j := FirstAt(lines[1..], x);
      assert Remove(lines, x) == [lines[0]] + Remove(lines[1..], x);
      hide Remove;
      CutOneLater(lines, j);
    }
  }

  lemma CutOneLater(lines: seq<string>, j: nat)
    requires j + 1 < |lines|
    ensures [lines[0]] + (lines[1..][..j] + lines[1..][j + 1..]) == lines[..j + 1] + lines[j + 2..]
  {
    assert lines[..1 + j] == [lines[0]] + lines[1..][..j];
    assert lines[j + 2..] == lines[1..][j + 1..];
  }

  /** What is kept of a list does not change when a dropped line is cut out of it. */
  lemma {:induction false} CuttingOutDropped(a: seq<string>, x: string, b: seq<string>)
    requires Dropped(x)
    ensures Kept(a + [x] + b) == Kept(a + b)
  {
    KeptAppend(a + [x], b);
    KeptAppend(a, [x]);
    KeptAppend(a, b);
    KeptOne(x);
    hide Kept;
    assert Kept(a) + [] == Kept(a);
  }

  /** The loop has reached `index`: what is still to be kept of the lines up to there, followed
      by the lines behind it, is the answer. */
  ghost predicate Reached(content: seq<string>, lines: seq<string>, index: int)
  {
    -1 <= index < |lines| && Kept(lines[..index + 1]) + lines[index + 1..] == Kept(content)
  }

  /** Removing the first copy of a line that is due at `i` touches no line behind `i` and keeps
      the answer, whichever copy it was. */
  lemma {:induction false} RemoveStep(content: seq<string>, lines: seq<string>, i: nat)
    requires Reached(content, lines, i) && Dropped(lines[i])
    ensures lines[i] in lines
    ensures Remove(lines, lines[i])[i..] == lines[i + 1..]
    ensures Reached(content, Remove(lines, lines[i]), i - 1)
  {
    hide Kept, Dropped, Remove;
    var x := lines[i];
    var r, j := Remove(lines, x), FirstAt(lines, x);
    RemoveCutsOut(lines, x);
    var a, b, tail := lines[..j], lines[j + 1..i + 1], lines[i + 1..];
    CutParts(lines, j, i);
    Sides(a + b, tail);
    CuttingOutDropped(a, x, b);
  }

  lemma {:induction false} CutParts(lines: seq<string>, j: nat, i: nat)
    requires j <= i < |lines|
    ensures lines[..j] + lines[j + 1..] == lines[..j] + lines[j + 1..i + 1] + lines[i + 1..]
    ensures lines[..i + 1] == lines[..j] + [lines[j]] + lines[j + 1..i + 1]
  {
  }

  lemma {:induction false} Sides(a: seq<string>, b: seq<string>)
    ensures (a + b)[..|a|] == a && (a + b)[|a|..] == b
  {
  }

  lemma {:induction false} StripStep(content: seq<string>, lines: seq<string>, i: nat)
    requires Reached(content, lines, i) && !Dropped(lines[i])
    ensures Reached(content, lines[i := Stripped(lines[i])], i - 1)
  {
    hide Kept, Dropped, Stripped;
    var front, x, done := lines[..i], lines[i], lines[i + 1..];
    KeptAppend(front, [x]);
    KeptOne(x);
    PutAt(lines, i, Stripped(x));
    Assoc(Kept(front), [Stripped(x)], done);
  }

  lemma {:induction false} PutAt(lines: seq<string>, i: nat, y: string)
    requires i < |lines|
    ensures lines[..i + 1] == lines[..i] + [lines[i]]
    ensures lines[i := y][..i] == lines[..i] && lines[i := y][i..] == [y] + lines[i + 1..]
  {
  }

  lemma {:induction false} ReachedEnds(content: seq<string>, lines: seq<string>)
    ensures Reached(content, content, |content| - 1)
    ensures Reached(content, lines, -1) ==> lines == Kept(content)
  {
    assert content[..|content|] == content;
    assert lines[..0] == [] && lines[0..] == lines;
  }

  /** For every file, with any duplicates: the backwards loop that removes first copies computes
      the order-preserving filter, and never leaves the list. */
  method ParseDscFdfInfContent(content: seq<string>) returns (lines: seq<string>)
    ensures lines == Kept(content)
  {
    lines := content;
    var index := |lines| - 1;
    ReachedEnds(content, content);
    hide Kept, Strip, Remove;
    while index >= 0
      invariant Reached(content, lines, index)
    {
      if IsComment(lines[index]) || IsBlank(lines[index]) {
        RemoveStep(content, lines, index);
        lines := Remove(lines, lines[index]);
      } else {
        StripStep(content, lines, index);
        if '#' in lines[index] {
          lines := lines[index := Strip(Before(lines[index], '#'))];
        } else {
          lines := lines[index := Strip(lines[index])];
        }
      }
      index := index - 1;
    }
    ReachedEnds(content, lines);
  }

  // ----- ParseDecContent

  const SECTIONS: seq<string> := ["LibraryClasses", "Guids", "Ppis", "Protocols", "Pcd"]

  predicate IsNeedParseSection(name: string)
  {
    exists s <- SECTIONS :: Contains(name, s)
  }

  function LastIndex(s: string, c: char): (n: nat)
    ensures n <= |s|
    ensures n > 0 ==> s[n - 1] == c
  {
    if s == "" then 0 else if s[|s| - 1] == c then |s| else LastIndex(s[..|s| - 1], c)
  }

  /** \[(.*)\] : from the first '[' to the last ']' behind it. */
  predicate HasSection(line: string)
  {
    |Before(line, '[')| + 1 < LastIndex(line, ']')
  }

  function SectionName(line: string): string
    requires HasSection(line)
  {
    line[|Before(line, '[')| + 1..LastIndex(line, ']') - 1]
  }

  function FlagAfter(flag: bool, line: string): bool
  {
    if HasSection(line) && !IsComment(line) then IsNeedParseSection(SectionName(line)) else flag
  }

  /** Line `i` belongs to a section that is parsed. */
  predicate Parsed(lines: seq<string>, i: nat)
    requires i < |lines|
  {
    FlagAfter(if i == 0 then false else Parsed(lines, i - 1), lines[i])
  }

  predicate IsItem(lines: seq<string>, i: nat)
    requires i < |lines|
  {
    Parsed(lines, i) && !IsComment(lines[i]) && !IsBlank(lines[i])
  }

  function NameOf(line: string): string
  {
    Strip(Before(Before(Before(line, '='), '|'), '#'))
  }

  /** The characters that end the name of an item. */
  predicate EndsName(c: char)
  {
    c == '=' || c == '|' || c == '#'
  }

  /** Cutting at one of them keeps what has none of them, and what follows still begins with one. */
  lemma {:induction false} CutKeeps(p: string, rest: string, c: char) returns (left: string)
    requires c !in p
    ensures Before(p + rest, c) == p + left
    ensures left == "" || (rest != "" && left[0] == rest[0])
    ensures rest != "" && rest[0] == c ==> left == ""
  {
    var t := Before(p + rest, c);
    left := "";
    if c in rest {
      var a := Before(rest, c);
      var b := rest[|a| + 1..];
      assert c in rest ==> |a| < |rest|;
      left := a;
      hide Before;
      assert rest == a + [c] + b;
      assert p + rest == (p + a) + [c] + b;
      BeforeOf(p + a, c, b);
    } else {
      left := rest;
      BeforeOf(p + rest, c, "");
    }
  }

  /** The name of an item: the text up to the first '=', '|' or '#', without the white space at both
      ends. */
  lemma {:induction false} NameIs(w: string, name: string, v: string, rest: string)
    requires AllSpace(w) && AllSpace(v) && (forall c <- name :: !EndsName(c))
    requires name == "" || (!IsSpace(name[0]) && !IsSpace(name[|name| - 1]))
    requires rest == "" || EndsName(rest[0])
    ensures NameOf(w + name + v + rest) == name
  {
    var p := w + name + v;
    assert forall c <- p :: !EndsName(c) by {
      assert !IsSpace('=') && !IsSpace('|') && !IsSpace('#');
    }
    StripOf(w, name, v);
    hide Strip, IsSpace, Before;
    var r1 := CutKeeps(p, rest, '=');
    var r2 := CutKeeps(p, r1, '|');
    var r3 := CutKeeps(p, r2, '#');
    assert r3 == "" && p + "" == p;
  }

  /** The section of a line stands between its first '[' and the last ']' behind that. */
  lemma {:induction false} SectionIs(a: string, name: string, b: string)
    requires '[' !in a && ']' !in b
    ensures var line := a + ("[" + (name + ("]" + b)));
            HasSection(line) && SectionName(line) == name
  {
    hide LastIndex, Before;
    var line := a + ("[" + (name + ("]" + b)));
    var front := a + ("[" + (name + "]"));
    Assoc(a, ['['], name + ("]" + b));
    BeforeOf(a, '[', name + ("]" + b));
    Assoc(name, "]", b);
    Assoc("[", name + "]", b);
    Assoc(a, "[" + (name + "]"), b);
    LastIndexIs(front, b, ']');
    SectionSlice(a, name, "]" + b);
  }

  lemma SectionSlice(a: string, name: string, rest: string)
    ensures (a + ("[" + (name + rest)))[|a| + 1..|a| + 1 + |name|] == name
  {
  }

  lemma {:induction false} LastIndexIs(front: string, b: string, c: char)
    requires front != "" && front[|front| - 1] == c && c !in b
    ensures LastIndex(front + b, c) == |front|
  {
    var s := front + b;
    if b == "" {
      assert s == front;
    } else {
      assert s[|s| - 1] == b[|b| - 1] && b[|b| - 1] in b;
      assert s[..|s| - 1] == front + b[..|b| - 1];
      LastIndexIs(front, b[..|b| - 1], c);
    }
  }

  /** A line has a section exactly when a ']' stands behind a '['. */
  lemma {:induction false} HasSectionIff(line: string)
    ensures HasSection(line) <==> exists i, j :: 0 <= i < j < |line| && line[i] == '[' && line[j] == ']'
  {
    var i, n := |Before(line, '[')|, LastIndex(line, ']');
    LastIndexIsLast(line, ']');
    assert forall m :: 0 <= m < i ==> line[m] == Before(line, '[')[m] && line[m] != '[';
    hide Before, LastIndex;
    if HasSection(line) {
      assert line[i] == '[' && line[n - 1] == ']';
    }
    forall k, j | 0 <= k < j < |line| && line[k] == '[' && line[j] == ']'
      ensures HasSection(line)
    {
      assert i <= k && j < n;
    }
  }

  lemma {:induction false} LastIndexIsLast(s: string, c: char)
    ensures forall j :: LastIndex(s, c) <= j < |s| ==> s[j] != c
  {
    if s != "" && s[|s| - 1] != c {
      LastIndexIsLast(s[..|s| - 1], c);
      assert forall j :: 0 <= j < |s| - 1 ==> s[j] == s[..|s| - 1][j];
    }
  }

  /** A section is parsed when its name has one of the five words in it. */
  lemma {:induction false} NeededIff(name: string)
    ensures IsNeedParseSection(name) <==>
            || HasPart(name, "LibraryClasses") || HasPart(name, "Guids") || HasPart(name, "Ppis")
            || HasPart(name, "Protocols") || HasPart(name, "Pcd")
  {
    ContainsIff(name, "LibraryClasses");
    ContainsIff(name, "Guids");
    ContainsIff(name, "Ppis");
    ContainsIff(name, "Protocols");
    ContainsIff(name, "Pcd");
    hide Contains, HasPart;
    assert SECTIONS[0] == "LibraryClasses" && SECTIONS[1] == "Guids" && SECTIONS[2] == "Ppis"
        && SECTIONS[3] == "Protocols" && SECTIONS[4] == "Pcd";
    forall s | s in SECTIONS
      ensures s == SECTIONS[0] || s == SECTIONS[1] || s == SECTIONS[2] || s == SECTIONS[3] || s == SECTIONS[4]
    {
    }
  }

  predicate IsSectionHead(line: string)
  {
    HasSection(line) && !IsComment(line)
  }

  /** A line is parsed when the last section head at or before it is of such a section. */
  lemma {:induction false} ParsedIff(lines: seq<string>, i: nat)
    requires i < |lines|
    ensures Parsed(lines, i) <==>
            exists k :: 0 <= k <= i && IsSectionHead(lines[k]) && IsNeedParseSection(SectionName(lines[k]))
                        && forall m :: k < m <= i ==> !IsSectionHead(lines[m])
    decreases i
  {
    hide HasSection, IsComment, IsNeedParseSection, SectionName;
    if i > 0 {
      ParsedIff(lines, i - 1);
    }
  }

  /** An item is a parsed line that is neither a comment nor empty. */
  lemma {:induction false} ItemIff(lines: seq<string>, i: nat)
    requires i < |lines|
    ensures IsItem(lines, i) <==>
            && Parsed(lines, i) && lines[i] != "\n" && lines[i] != "\r\n"
            && !exists w, rest :: AllSpace(w) && lines[i] == w + "#" + rest
  {
    CommentIff(lines[i]);
    hide Parsed, IsComment;
  }

  /** Line `i` goes with item `k`: it is parsed and no item comes between. */
  ghost predicate Belongs(lines: seq<string>, i: nat, k: nat)
    requires k < |lines|
  {
    i <= k && Parsed(lines, i) && forall m :: i <= m < k ==> !IsItem(lines, m)
  }

  ghost predicate Increasing(s: seq<nat>)
  {
    forall i, j :: 0 <= i < j < |s| ==> s[i] < s[j]
  }

  /** `group` lists exactly the parsed lines from the one after the previous item up to `n`. */
  ghost predicate Pending(lines: seq<string>, group: seq<nat>, n: nat)
    requires n <= |lines|
  {
    && Increasing(group)
    && (forall i: nat :: i in group <==> i < n && Parsed(lines, i) && forall m :: i <= m < n ==> !IsItem(lines, m))
  }

  ghost predicate IsGroup(lines: seq<string>, group: seq<nat>, k: nat)
    requires k < |lines|
  {
    && Increasing(group)
    && (forall i: nat :: i in group <==> Belongs(lines, i, k))
  }

  /** The items so far and their groups, each exactly what it should be. */
  ghost predicate Right(lines: seq<string>, items: map<nat, string>, comments: map<nat, seq<nat>>, n: nat)
    requires n <= |lines|
  {
    && (forall k: nat :: k in items <==> k < n && IsItem(lines, k))
    && comments.Keys == items.Keys
    && (forall k :: k in items ==> items[k] == NameOf(lines[k]))
    && (forall k :: k in comments ==> k < n && IsGroup(lines, comments[k], k))
  }

  lemma {:induction false} IncreasingSnoc(group: seq<nat>, n: nat)
    requires Increasing(group) && forall i :: i in group ==> i < n
    ensures Increasing(group + [n])
  {
    var g := group + [n];
    forall i, j | 0 <= i < j < |g|
      ensures g[i] < g[j]
    {
      assert group[i] in group;
    }
  }

  lemma {:induction false} PendingGrows(lines: seq<string>, group: seq<nat>, n: nat)
    requires n < |lines| && Pending(lines, group, n)
    ensures var group' := if Parsed(lines, n) then group + [n] else group;
            if IsItem(lines, n) then IsGroup(lines, group', n) && Pending(lines, [], n + 1)
            else Pending(lines, group', n + 1)
  {
    hide FlagAfter, IsComment, IsBlank;
    var group' := if Parsed(lines, n) then group + [n] else group;
    IncreasingSnoc(group, n);
    forall i: nat
      ensures i in group' <==> i <= n && Parsed(lines, i) && forall m :: i <= m < n ==> !IsItem(lines, m)
    {
      assert i in group' <==> i in group || (Parsed(lines, n) && i == n);
    }
    if IsItem(lines, n) {
      assert forall i: nat :: i in group' <==> Belongs(lines, i, n);
    }
  }

  /** One line of the loop: an item takes the pending lines with it, any other line waits. */
  lemma {:induction false} LineKeepsRight(lines: seq<string>, items: map<nat, string>, comments: map<nat, seq<nat>>,
                                          group: seq<nat>, n: nat)
    requires n < |lines| && Pending(lines, group, n) && Right(lines, items, comments, n)
    ensures var group' := if Parsed(lines, n) then group + [n] else group;
            if IsItem(lines, n) then
              && Right(lines, items[n := NameOf(lines[n])], comments[n := group'], n + 1)
              && Pending(lines, [], n + 1)
            else Right(lines, items, comments, n + 1) && Pending(lines, group', n + 1)
  {
    PendingGrows(lines, group, n);
    hide IsItem, IsGroup, Pending, NameOf, Parsed, Right;
    if IsItem(lines, n) {
      ItemIsAdded(lines, items, comments, n, if Parsed(lines, n) then group + [n] else group);
    } else {
      NoItemIsAdded(lines, items, comments, n);
    }
  }

  lemma {:induction false} ItemIsAdded(lines: seq<string>, items: map<nat, string>, comments: map<nat, seq<nat>>,
                                       n: nat, group: seq<nat>)
    requires n < |lines| && IsItem(lines, n) && Right(lines, items, comments, n) && IsGroup(lines, group, n)
    ensures Right(lines, items[n := NameOf(lines[n])], comments[n := group], n + 1)
  {
    hide IsItem, IsGroup, NameOf;
  }

  lemma {:induction false} NoItemIsAdded(lines: seq<string>, items: map<nat, string>, comments: map<nat, seq<nat>>, n: nat)
    requires n < |lines| && !IsItem(lines, n) && Right(lines, items, comments, n)
    ensures Right(lines, items, comments, n + 1)
  {
    hide IsItem, IsGroup, NameOf;
  }

  lemma {:induction false} NothingRead(lines: seq<string>)
    ensures Pending(lines, [], 0) && Right(lines, map[], map[], 0)
  {
  }

  /** ParseDecContent: the names of the items and, for each, its group of lines. */
  method ParseDecContent(lines: seq<string>) returns (items: map<nat, string>, comments: map<nat, seq<nat>>)
    ensures Right(lines, items, comments, |lines|)
  {
    NothingRead(lines);
    hide Pending, Right, NameOf, IsNeedParseSection, HasSection, SectionName, IsComment, IsBlank;
    var flag, commentLine: seq<nat> := false, [];
    items, comments := map[], map[];
    var index := 0;
    while index < |lines|
      invariant index <= |lines|
      invariant flag == (if index == 0 then false else Parsed(lines, index - 1))
      invariant Pending(lines, commentLine, index)
      invariant Right(lines, items, comments, index)
    {
      LineKeepsRight(lines, items, comments, commentLine, index);
      var content := lines[index];
      var notComment := !IsComment(content);
      if HasSection(content) && notComment {
        flag := IsNeedParseSection(SectionName(content));
      }
      if flag {
        commentLine := commentLine + [index];
        if notComment && !IsBlank(content) {
          items := items[index := NameOf(content)];
          comments := comments[index := commentLine];
          commentLine := [];
        }
      }
      index := index + 1;
    }
  }

  // ----- what the groups are like

  lemma {:induction false} LastIsLargest(group: seq<nat>, k: nat)
    requires Increasing(group) && k in group
    ensures k <= group[|group| - 1]
  {
  }

  /** Groups are increasing, end at their own item, and hold besides it only comment and blank
      lines of parsed sections. */
  lemma {:induction false} GroupEndsAtItem(lines: seq<string>, group: seq<nat>, k: nat)
    requires k < |lines| && IsItem(lines, k) && IsGroup(lines, group, k)
    ensures group != [] && group[|group| - 1] == k
    ensures forall i :: i in group && i != k ==> i < k && Parsed(lines, i) && (IsComment(lines[i]) || IsBlank(lines[i]))
  {
    hide FlagAfter, IsComment, IsBlank;
    assert Belongs(lines, k, k);
    assert k in group;
    var last := group[|group| - 1];
    assert last in group;
    LastIsLargest(group, k);
    forall i | i in group && i != k
      ensures i < k && Parsed(lines, i) && (IsComment(lines[i]) || IsBlank(lines[i]))
    {
      assert Belongs(lines, i, k);
      assert !IsItem(lines, i);
    }
  }

  /** Two groups never share a line: a later group lies wholly behind an earlier item. */
  lemma {:induction false} GroupsAreDisjoint(lines: seq<string>, items: map<nat, string>, comments: map<nat, seq<nat>>,
                                             k: nat, m: nat)
    requires Right(lines, items, comments, |lines|)
    ensures k in comments && m in comments && k < m ==>
              forall i, j :: i in comments[k] && j in comments[m] ==> i <= k < j <= m
  {
    hide FlagAfter, IsComment, IsBlank;
    if k in comments && m in comments && k < m {
      assert IsItem(lines, k);
      forall i, j | i in comments[k] && j in comments[m]
        ensures i <= k < j <= m
      {
        assert Belongs(lines, i, k) && Belongs(lines, j, m);
      }
    }
  }

  // ----- Clean

  /** The lines whose number is not in `removed`, in order. */
  function Without(lines: seq<string>, removed: set<nat>, n: nat): seq<string>
    requires n <= |lines|
  {
    if n == 0 then []
    else Without(lines, removed, n - 1) + if n - 1 in removed then [] else [lines[n - 1]]
  }

  ghost function RemovedLines(unused: seq<nat>, comments: map<nat, seq<nat>>): set<nat>
  {
    set k, i | k in unused && k in comments && i in comments[k] :: i
  }

  method Clean(lines: seq<string>, unused: seq<nat>, comments: map<nat, seq<nat>>) returns (out: seq<string>)
    ensures out == Without(lines, RemovedLines(unused, comments), |lines|)
  {
    var removedNum: seq<nat> := [];
    var u := 0;
    while u < |unused|
      invariant u <= |unused|
      invariant forall i :: i in removedNum <==> i in RemovedLines(unused[..u], comments)
    {
      var num := unused[u];
      assert unused[..u + 1] == unused[..u] + [num];
      if num in comments {
        removedNum := removedNum + comments[num];
      }
      u := u + 1;
    }
    assert unused[..u] == unused;
    out := [];
    var lineNum := 0;
    while lineNum < |lines|
      invariant lineNum <= |lines|
      invariant out == Without(lines, RemovedLines(unused, comments), lineNum)
    {
      if lineNum !in removedNum {
        out := out + [lines[lineNum]];
      }
      lineNum := lineNum + 1;
    }
  }

  /** With the groups of ParseDecContent, Clean deletes a line if and only if it is parsed and the
      next item at or behind it is an unused one; so it deletes the unused items with their own
      comments, and no used item. */
  lemma {:induction false} CleanDeletesExactly(lines: seq<string>, items: map<nat, string>, comments: map<nat, seq<nat>>,
                                               unused: seq<nat>, i: nat)
    requires Right(lines, items, comments, |lines|) && i < |lines|
    requires forall k :: k in unused ==> k in items
    ensures i in RemovedLines(unused, comments) <==> exists k: nat :: k in unused && k < |lines| && Belongs(lines, i, k)
    ensures i in items && i !in unused ==> i !in RemovedLines(unused, comments)
  {
    hide IsItem, Parsed, NameOf, Increasing;
    if i in RemovedLines(unused, comments) {
      var k :| k in unused && k in comments && i in comments[k];
      assert IsGroup(lines, comments[k], k);
      assert Belongs(lines, i, k);
      assert i in items ==> IsItem(lines, i);
    }
    forall k: nat | k in unused && k < |lines| && Belongs(lines, i, k)
      ensures i in RemovedLines(unused, comments)
    {
      assert k in comments && IsGroup(lines, comments[k], k);
      assert i in comments[k];
    }
  }
}
