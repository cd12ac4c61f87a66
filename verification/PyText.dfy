/** The few string operations of Python that the text tools use. */
module PyText {

  const CRLF: string := "\r\n"

  /** str.isspace for one character. */
  predicate IsSpace(c: char)
  {
    || '\t' <= c <= '\r' || 0x1C as char <= c <= ' ' || c == 0x85 as char || c == 0xA0 as char
    || c == 0x1680 as char || 0x2000 as char <= c <= 0x200A as char || c == 0x2028 as char
    || c == 0x2029 as char || c == 0x202F as char || c == 0x205F as char || c == 0x3000 as char
  }

  predicate StartsWith(s: string, p: string)
  {
    p <= s
  }

  predicate EndsWith(s: string, p: string)
  {
    |p| <= |s| && s[|s| - |p|..] == p
  }

  /** p in s */
  predicate Contains(s: string, p: string)
  {
    p <= s || (s != "" && Contains(s[1..], p))
  }

  function LStrip(s: string): (t: string)
    ensures |t| <= |s|
  {
    if s != "" && IsSpace(s[0]) then LStrip(s[1..]) else s
  }

  function RStrip(s: string): (t: string)
    ensures t <= s
    ensures |t| < |s| <==> s != "" && IsSpace(s[|s| - 1])
  {
    if s != "" && IsSpace(s[|s| - 1]) then RStrip(s[..|s| - 1]) else s
  }

  function Strip(s: string): string
  {
    RStrip(LStrip(s))
  }

  /** s.split(c)[0] */
  function Before(s: string, c: char): (t: string)
    ensures t <= s && c !in t
    ensures |t| < |s| ==> s[|t|] == c
  {
    if s == "" || s[0] == c then "" else
      assert s == [s[0]] + s[1..];
      [s[0]] + Before(s[1..], c)
  }

  /** s[n:] */
  function From(s: string, n: nat): string
  {
    if n <= |s| then s[n..] else ""
  }

  lemma PrefixesDiffer(s: string, p: string, q: string, i: nat)
    requires i < |p| && i < |q| && p[i] != q[i] && StartsWith(s, p)
    ensures !StartsWith(s, q)
  {
    assert s[i] == p[i];
  }

  // ----- what they mean, by decomposition

  /** The white space characters of Unicode, as str.isspace knows them. */
  lemma {:induction false} SpacesAre(c: char)
    ensures IsSpace(c) <==>
            c as int in {0x09, 0x0A, 0x0B, 0x0C, 0x0D, 0x1C, 0x1D, 0x1E, 0x1F, 0x20, 0x85, 0xA0, 0x1680,
                         0x2000, 0x2001, 0x2002, 0x2003, 0x2004, 0x2005, 0x2006, 0x2007, 0x2008, 0x2009, 0x200A,
                         0x2028, 0x2029, 0x202F, 0x205F, 0x3000}
  {
  }

  /** `s` has `p` at some place. */
  ghost predicate HasPart(s: string, p: string)
  {
    exists x, y :: s == x + p + y
  }

  lemma {:induction false} ContainsIff(s: string, p: string)
    ensures Contains(s, p) <==> HasPart(s, p)
  {
    if p <= s {
      assert s == "" + p + s[|p|..];
    } else if s != "" {
      ContainsIff(s[1..], p);
      if HasPart(s[1..], p) {
        var x, y :| s[1..] == x + p + y;
        assert s == ([s[0]] + x) + p + y;
      }
      if HasPart(s, p) {
        PartIsLater(s, p);
      }
    }
  }

  lemma {:induction false} PartIsLater(s: string, p: string)
    requires s != "" && !(p <= s) && HasPart(s, p)
    ensures HasPart(s[1..], p)
  {
    var x, y :| s == x + p + y;
    assert x != "" by {
      assert p <= p + y;
      assert x == "" ==> x + p + y == p + y;
    }
    assert s[1..] == x[1..] + p + y;
  }

  predicate AllSpace(s: string)
  {
    forall c <- s :: IsSpace(c)
  }

  lemma {:induction false} LStripOf(w: string, s: string)
    requires AllSpace(w) && (s == "" || !IsSpace(s[0]))
    ensures LStrip(w + s) == s
  {
    hide IsSpace;
    if w == "" {
      assert w + s == s;
    } else {
      assert w[0] in w && (w + s)[1..] == w[1..] + s;
      assert forall c <- w[1..] :: c in w;
      LStripOf(w[1..], s);
    }
  }

  lemma {:induction false} LStripLeaves(s: string) returns (w: string)
    ensures s == w + LStrip(s) && AllSpace(w)
    ensures LStrip(s) == "" || !IsSpace(LStrip(s)[0])
  {
    hide IsSpace;
    if s != "" && IsSpace(s[0]) {
      var v := LStripLeaves(s[1..]);
      w := [s[0]] + v;
      assert LStrip(s) == LStrip(s[1..]);
      hide LStrip;
      assert s == [s[0]] + s[1..];
      assert [s[0]] + (v + LStrip(s[1..])) == w + LStrip(s[1..]);
    } else {
      w := "";
      assert "" + s == s;
    }
  }

  lemma {:induction false} RStripOf(s: string, w: string)
    requires AllSpace(w) && (s == "" || !IsSpace(s[|s| - 1]))
    ensures RStrip(s + w) == s
  {
    hide IsSpace;
    if w == "" {
      assert s + w == s;
    } else {
      var n := |w| - 1;
      assert w[n] in w && (s + w)[..|s + w| - 1] == s + w[..n];
      assert forall c <- w[..n] :: c in w;
      RStripOf(s, w[..n]);
    }
  }

  /** Stripping removes the white space at both ends and nothing else. */
  lemma {:induction false} StripOf(w: string, s: string, v: string)
    requires AllSpace(w) && AllSpace(v) && (s == "" || (!IsSpace(s[0]) && !IsSpace(s[|s| - 1])))
    ensures Strip(w + s + v) == s
  {
    hide IsSpace, LStrip, RStrip;
    if s == "" {
      assert w + s + v == (w + v) + "";
      assert AllSpace(w + v);
      LStripOf(w + v, "");
      RStripOf("", "");
      assert "" + "" == "";
    } else {
      assert w + s + v == w + (s + v);
      LStripOf(w, s + v);
      RStripOf(s, v);
    }
  }

  /** The text before the first `c`, or all of it. */
  lemma {:induction false} BeforeOf(a: string, c: char, b: string)
    requires c !in a
    ensures Before(a + [c] + b, c) == a && Before(a, c) == a
  {
    var s := a + [c] + b;
    if a == "" {
      assert s[0] == c;
    } else {
      assert a[0] in a && s[1..] == a[1..] + [c] + b;
      assert a == [a[0]] + a[1..];
      BeforeOf(a[1..], c, b);
    }
  }
}
