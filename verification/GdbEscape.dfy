/** Binary-data escaping in gXferObjectReadResponse, and its trip through the packet layer. */
module GdbEscape {
  import opened Basics
  import opened GdbBytes
  import opened GdbPacket
  import opened GdbGrammar
  import opened GdbDelivery

  predicate MustEscape(c: byte)
  {
    c == BRACE || c == HASH || c == DOLLAR || c == STAR
  }

  /** Exclusive or with 0x20: bit 5 flipped. */
  function Flip20(c: byte): (d: byte)
  {
    if c / 32 % 2 == 1 then c - 32 else c + 32
  }

  function EscapeByte(c: byte): seq<byte>
  {
    if MustEscape(c) then [BRACE, Flip20(c)] else [c]
  }

  function Escape(s: seq<byte>): (e: seq<byte>)
  {
    if s == [] then [] else Escape(s[..|s| - 1]) + EscapeByte(s[|s| - 1])
  }

  lemma {:induction false} EscapeAppend(a: seq<byte>, b: seq<byte>)
    ensures Escape(a + b) == Escape(a) + Escape(b)
    decreases |b|
  {
    if b == [] {
      assert a + b == a;
    } else {
      var front := b[..|b| - 1];
      assert (a + b)[..|a + b| - 1] == a + front;
      EscapeAppend(a, front);
    }
  }

  /** The four characters that are escaped, and how; every other character stands for itself. */
  lemma {:induction false} EscapeTable(a: seq<byte>, c: byte, b: seq<byte>)
    ensures Escape(a + [c] + b) == Escape(a) + (
              if c == 0x7D then [0x7D, 0x5D]
              else if c == 0x23 then [0x7D, 0x03]
              else if c == 0x24 then [0x7D, 0x04]
              else if c == 0x2A then [0x7D, 0x0A]
              else [c]) + Escape(b)
  {
    hide Escape, EscapeByte;
    EscapeAppend(a + [c], b);
    EscapeAppend(a, [c]);
    EscapeOne(c);
  }

  lemma {:induction false} EscapeOne(c: byte)
    ensures Escape([c]) == if c == 0x7D then [0x7D, 0x5D]
                           else if c == 0x23 then [0x7D, 0x03]
                           else if c == 0x24 then [0x7D, 0x04]
                           else if c == 0x2A then [0x7D, 0x0A]
                           else [c]
  {
    assert [c][..0] == [];
    assert Escape([c]) == Escape([]) + EscapeByte(c);
    assert [] + EscapeByte(c) == EscapeByte(c);
  }

  /** The debugger's side of the "Binary Data" rule: '}' announces a byte xor 0x20. */
  function Unescape(e: seq<byte>): (s: seq<byte>)
  {
    if e == [] then []
    else if e[0] == BRACE && |e| >= 2 then [Flip20(e[1])] + Unescape(e[2..])
    else [e[0]] + Unescape(e[1..])
  }

  lemma UnescapeByte(c: byte, t: seq<byte>)
    ensures Unescape(EscapeByte(c) + t) == [c] + Unescape(t)
  {
    var e := EscapeByte(c) + t;
    if MustEscape(c) {
      assert e[0] == BRACE && e[1] == Flip20(c) && e[2..] == t;
    } else {
      assert e[1..] == t;
    }
  }

  lemma {:induction false} UnescapeAppend(s: seq<byte>, t: seq<byte>)
    ensures Unescape(Escape(s) + t) == s + Unescape(t)
    decreases |s|
  {
    if s == [] {
      assert Escape(s) + t == t;
    } else {
      var front, c := s[..|s| - 1], s[|s| - 1];
      assert Escape(s) + t == Escape(front) + (EscapeByte(c) + t);
      UnescapeAppend(front, EscapeByte(c) + t);
      UnescapeByte(c, t);
      assert s + Unescape(t) == front + ([c] + Unescape(t));
    }
  }

  /** Escaping is undone by the debugger's rule. */
  lemma {:induction false} UnescapeEscape(s: seq<byte>)
    ensures Unescape(Escape(s)) == s
  {
    UnescapeAppend(s, []);
    assert Escape(s) + [] == Escape(s) && s + Unescape([]) == s;
  }

  /** The escaped form is free of '$', '#' and '*', so it can be framed, and free of NUL
      exactly when the string is. */
  lemma {:induction false} EscapeIsClean(s: seq<byte>)
    ensures Clean(Escape(s)) && STAR !in Escape(s)
    ensures NUL in Escape(s) <==> NUL in s
    decreases |s|
  {
    if s != [] {
      var front, c := s[..|s| - 1], s[|s| - 1];
      EscapeIsClean(front);
      assert s == front + [c];
      assert EscapeByte(c) == [c] || EscapeByte(c)[1] in [0x5D, 0x03, 0x04, 0x0A];
    }
  }

  /** Escape, frame, receive, unescape: the identity for every string whose escaped form fits
      the receive buffer. */
  lemma {:induction false} EscapedDelivery(size: nat, s: seq<byte>)
    requires |Escape(s)| + 2 <= size
    ensures Receive(size, Hunting, Frame(Escape(s))) == Reception(Done(Escape(s)), [PLUS], |Escape(s)| + 4)
    ensures Unescape(Escape(s)) == s
  {
    EscapeIsClean(s);
    UnescapeEscape(s);
    AcceptedIffSumMatches(size, Escape(s), Escape(s));
    assert Damaged(Escape(s), Escape(s)) == Frame(Escape(s));
  }

  lemma {:induction false} CStringOf(buf: seq<byte>, s: seq<byte>)
    requires NUL !in s && s <= buf && |s| < |buf| && buf[|s|] == NUL
    ensures CString(buf) == s
  {
    if s != [] {
      assert s[0] in s;
      CStringOf(buf[1..], s[1..]);
    }
  }

  lemma {:induction false} EscapeSnoc(s: seq<byte>, n: nat)
    requires n < |s|
    ensures Escape(s[..n + 1]) == Escape(s[..n]) + EscapeByte(s[n])
    ensures |Escape(s[..n + 1])| <= |Escape(s)|
    decreases |s| - n
  {
    assert s[..n + 1][..n] == s[..n];
    if n + 1 < |s| {
      EscapeSnoc(s, n + 1);
    } else {
      assert s[..n + 1] == s;
    }
  }

  /** How gXferObjectReadResponse ends: past the end of its buffer, waiting for a reply in
      SendPacket, or with the count it returns. */
  datatype Response = Overran | Waiting | Counted(count: nat)

  /** gXferObjectReadResponse: the output position is rewound over the type byte before the
      string is copied, so the packet carries the escaped string alone; the returned count is
      one more than the unescaped length. The source does not look at the end of the buffer: an
      escaped string that fills it is written past it. */
  method XferObjectReadResponse(line: SerialLine, outBuffer: array<byte>, retries: nat, kind: byte, str: seq<byte>)
    returns (r: Response)
    requires outBuffer.Length > 0
    modifies line, outBuffer
    ensures var e := Escape(CString(str));
            if |e| >= outBuffer.Length then r == Overran && unchanged(line)
            else
              && line.Sent(e, retries)
              && r == if Send(e, retries, 0, old(line.input)).returned.Some? then Counted(|CString(str)| + 1) else Waiting
  {
    ghost var text := CString(str);
    outBuffer[0] := kind;
    var fits, n := CopyEscaped(outBuffer, str);
    if !fits {
      return Overran;
    }
    EscapeIsClean(text);
    CStringOf(outBuffer[..], Escape(text));
    hide Escape, CString, SentOn;
    var sent := SendPacket(line, outBuffer[..], retries);
    r := if sent.Some? then Counted(n + 1) else Waiting;
  }

  method PutEscaped(outBuffer: array<byte>, at: nat, c: byte) returns (next: nat)
    requires at + |EscapeByte(c)| <= outBuffer.Length
    modifies outBuffer
    ensures next == at + |EscapeByte(c)|
    ensures outBuffer[..next] == old(outBuffer[..at]) + EscapeByte(c)
  {
    var ch := c;
    next := at;
    if MustEscape(ch) {
      outBuffer[next] := BRACE;
      next := next + 1;
      ch := Flip20(ch);
    }
    outBuffer[next] := ch;
    next := next + 1;
  }

  /** The copying loop: `outBuffer` from its first byte holds the escaped string and a NUL, unless
      the two do not fit. */
  method CopyEscaped(outBuffer: array<byte>, str: seq<byte>) returns (fits: bool, n: nat)
    modifies outBuffer
    ensures fits <==> |Escape(CString(str))| < outBuffer.Length
    ensures fits ==> n == |CString(str)|
    ensures fits ==> var e := Escape(CString(str)); outBuffer[..|e|] == e && outBuffer[|e|] == NUL
  {
    ghost var text := CString(str);
    assert IsCString(str, text);
    hide Escape, CString, IsCString;
    var at;
    fits, n, at := CopyAll(outBuffer, str, text);
    fits := fits && at < outBuffer.Length;
    if fits {
      EndString(outBuffer, at);
    }
  }

  /** The loop alone. */
  method CopyAll(outBuffer: array<byte>, str: seq<byte>, ghost text: seq<byte>) returns (fits: bool, n: nat, at: nat)
    requires IsCString(str, text)
    modifies outBuffer
    ensures fits <==> |Escape(text)| <= outBuffer.Length
    ensures fits ==> n == |text| && at == |Escape(text)| && outBuffer[..at] == Escape(text)
  {
    hide IsCString;
    at, n := 0, 0;
    assert text[..0] == [] && Escape(text[..0]) == [];
    hide Escape;
    while n < |str| && str[n] != NUL
      invariant n <= |text|
      invariant at == |Escape(text[..n])| <= outBuffer.Length
      invariant outBuffer[..at] == Escape(text[..n])
    {
      CStringWalk(str, text, n);
      EscapeSnoc(text, n);
      fits, at := CopyNext(outBuffer, at, str[n], text, n);
      if !fits {
        return;
      }
      n := n + 1;
    }
    CStringWalk(str, text, n);
    fits := true;
  }

  /** One turn of the loop: character `n` of `text`, escaped, behind those before it. */
  method CopyNext(outBuffer: array<byte>, at: nat, c: byte, ghost text: seq<byte>, ghost n: nat)
    returns (fits: bool, next: nat)
    requires n < |text| && c == text[n]
    requires at == |Escape(text[..n])| <= outBuffer.Length && outBuffer[..at] == Escape(text[..n])
    modifies outBuffer
    ensures fits <==> |Escape(text[..n + 1])| <= outBuffer.Length
    ensures fits ==> next == |Escape(text[..n + 1])| && outBuffer[..next] == Escape(text[..n + 1])
  {
    EscapeSnoc(text, n);
    hide Escape;
    next := at;
    fits := at + (if MustEscape(c) then 2 else 1) <= outBuffer.Length;
    if fits {
      next := PutEscaped(outBuffer, at, c);
    }
  }

  method EndString(outBuffer: array<byte>, at: nat)
    requires at < outBuffer.Length
    modifies outBuffer
    ensures outBuffer[..at] == old(outBuffer[..at]) && outBuffer[at] == NUL
  {
    outBuffer[at] := NUL;
  }

  lemma {:induction false} EscapeHead(s: seq<byte>)
    requires s != []
    ensures EscapeByte(s[0]) <= Escape(s)
    decreases |s|
  {
    if |s| > 1 {
      EscapeHead(s[..|s| - 1]);
    } else {
      assert s == [] + [s[0]] && s[..0] == [];
    }
  }

  /** The reply begins with its type byte ('m' or 'l') if and only if the string itself does:
      the type byte never reaches the line. */
  lemma {:induction false} TypeByteIsLost(kind: byte, s: seq<byte>)
    requires !MustEscape(kind)
    ensures [kind] <= Escape(s) <==> [kind] <= s
  {
    if s != [] {
      EscapeHead(s);
    }
  }
}
