/** Characters, hexadecimal digits and C strings as the GDB stub sees them.
    A CHAR8 is a byte 0..255; the end of a sequence stands for the terminating NUL. */
module GdbBytes {
  import opened Basics

  const NUL: byte := 0x00
  const HASH: byte := 0x23    // '#'
  const DOLLAR: byte := 0x24  // '$'
  const STAR: byte := 0x2A    // '*'
  const PLUS: byte := 0x2B    // '+'
  const COMMA: byte := 0x2C   // ','
  const MINUS: byte := 0x2D   // '-'
  const COLON: byte := 0x3A   // ':'
  const BRACE: byte := 0x7D   // '}'
  const CTRL_C: byte := 0x03

  const MAX_UINTN: nat := 0xFFFF_FFFF_FFFF_FFFF

  /** The bytes of a C string held in `buf`: everything before its first NUL. */
  function CString(buf: seq<byte>): (s: seq<byte>)
    ensures NUL !in s && s <= buf
    ensures NUL !in buf ==> s == buf
    ensures NUL in buf ==> |s| < |buf| && buf[|s|] == NUL
  {
    if buf == [] || buf[0] == NUL then [] else
      assert buf == [buf[0]] + buf[1..];
      [buf[0]] + CString(buf[1..])
  }

  /** `s` is the C string in `buf`. */
  predicate IsCString(buf: seq<byte>, s: seq<byte>)
  {
    s == CString(buf)
  }

  /** Walking a C string: the next character belongs to it unless it is NUL or the buffer ends. */
  lemma {:induction false} CStringWalk(buf: seq<byte>, s: seq<byte>, n: nat)
    requires IsCString(buf, s) && n <= |s|
    ensures n < |s| <==> n < |buf| && buf[n] != NUL
    ensures n < |s| ==> s[n] == buf[n]
    ensures n == |s| ==> s[..n] == s
  {
    hide CString;
    assert n < |s| ==> s[n] in s;
    if n == |s| && NUL !in buf {
      assert s == buf;
    }
  }

  /** The first position of `c` in `s`, or |s| when it does not occur. */
  function IndexOf(s: seq<byte>, c: byte): (i: nat)
    ensures i <= |s|
    ensures c !in s[..i]
    ensures i < |s| ==> s[i] == c
  {
    if s == [] || s[0] == c then 0 else
      var k := IndexOf(s[1..], c);
      assert s[..1 + k] == [s[0]] + s[1..][..k];
      1 + k
  }

  lemma {:induction false} IndexOfIsFirst(a: seq<byte>, c: byte, b: seq<byte>)
    requires c !in a
    ensures IndexOf(a + [c] + b, c) == |a|
  {
    var s := a + [c] + b;
    if a == [] {
      assert s[0] == c;
    } else {
      IndexOfIsFirst(a[1..], c, b);
      assert s[1..] == a[1..] + [c] + b;
      assert a[0] in a;
    }
  }

  lemma {:induction false} IndexOfMissing(s: seq<byte>, c: byte)
    requires c !in s
    ensures IndexOf(s, c) == |s|
  {
    if s != [] {
      assert s[0] in s;
      IndexOfMissing(s[1..], c);
    }
  }

  lemma {:induction false} FirstIsLater(text: seq<byte>, stop: byte, at: nat)
    requires at <= |text| && stop !in text[..at]
    ensures IndexOf(text, stop) >= at
    ensures at == |text| || text[at] == stop ==> IndexOf(text, stop) == at
  {
  }

  lemma PrefixSnoc(s: seq<byte>, n: nat)
    requires n < |s|
    ensures s[..n + 1] == s[..n] + [s[n]]
  {
  }

  lemma SplitAt(s: seq<byte>, j: nat)
    ensures j < |s| ==> s == s[..j] + [s[j]] + s[j + 1..]
  {
  }

  /** A position that advances to the first `c` or to the end. */
  method Find(s: seq<byte>, c: byte) returns (at: nat)
    ensures at == IndexOf(s, c)
  {
    at := 0;
    while at < |s| && s[at] != c
      invariant at <= |s| && c !in s[..at]
    {
      at := at + 1;
    }
    FirstIsLater(s, c, at);
  }

  /** `s` is what is left of `whole`. */
  predicate IsSuffix(s: seq<byte>, whole: seq<byte>)
  {
    |s| <= |whole| && s == whole[|whole| - |s|..]
  }

  lemma SuffixDrop(s: seq<byte>, whole: seq<byte>, n: nat)
    requires IsSuffix(s, whole) && n <= |s|
    ensures IsSuffix(s[n..], whole) && |s[n..]| == |s| - n
  {
    assert s[n..] == whole[|whole| - |s| + n..];
  }

  lemma SuffixOf(s: seq<byte>, t: seq<byte>, whole: seq<byte>)
    requires IsSuffix(s, t) && IsSuffix(t, whole)
    ensures IsSuffix(s, whole)
  {
    SuffixDrop(t, whole, |t| - |s|);
  }

  /** mHexToStr: the upper-case digit of a nibble. */
  function HexDigit(n: nat): (c: byte)
    requires n < 16
    ensures HexCharToInt(c) == n
  {
    if n < 10 then 0x30 + n else 0x41 + n - 10
  }

  /** The lower-case digit of a nibble, as TransferFromMemToOutBufAndSend produces it. */
  function LowerHexDigit(n: nat): (c: byte)
    requires n < 16
    ensures HexCharToInt(c) == n
  {
    if n < 10 then 0x30 + n else 0x61 + n - 10
  }

  /** The value of a hexadecimal character, or -1. */
  function HexCharToInt(c: byte): (v: int)
    ensures -1 <= v < 16
    ensures v == -1 <==> !(0x30 <= c <= 0x39 || 0x41 <= c <= 0x46 || 0x61 <= c <= 0x66)
  {
    if 0x41 <= c <= 0x46 then c - 0x41 + 10
    else if 0x61 <= c <= 0x66 then c - 0x61 + 10
    else if 0x30 <= c <= 0x39 then c - 0x30
    else -1
  }

  /** Exactly the two digits of a number have it as their value, and nothing else has any. */
  lemma {:induction false} HexCharInverts(c: byte, n: nat)
    requires n < 16
    ensures HexCharToInt(c) == n <==> c == HexDigit(n) || c == LowerHexDigit(n)
    ensures HexCharToInt(c) == -1 <==> forall k :: 0 <= k < 16 ==> c != HexDigit(k) && c != LowerHexDigit(k)
  {
    if HexCharToInt(c) >= 0 {
      var k := HexCharToInt(c);
      assert c == HexDigit(k) || c == LowerHexDigit(k);
    }
  }

  /** The two upper-case digits of a byte. */
  function HexByte(v: byte): (s: seq<byte>)
    ensures |s| == 2
  {
    [HexDigit(v / 16), HexDigit(v % 16)]
  }

  function SkipBlanks(s: seq<byte>): (t: seq<byte>)
    ensures |t| <= |s|
  {
    if s != [] && (s[0] == 0x20 || s[0] == 0x09) then SkipBlanks(s[1..]) else s
  }

  function SkipZeros(s: seq<byte>): (t: seq<byte>)
    ensures |t| <= |s|
  {
    if s != [] && s[0] == 0x30 then SkipZeros(s[1..]) else s
  }

  /** The digits at the front of `s` read after `acc`, saturating at MAX_UINTN. */
  function DigitsValue(acc: nat, s: seq<byte>): (v: nat)
    requires acc <= MAX_UINTN
    ensures v <= MAX_UINTN
    decreases |s|
  {
    if s == [] || HexCharToInt(s[0]) < 0 then acc
    else
      var d := HexCharToInt(s[0]);
      if acc > (MAX_UINTN - d) / 16 then MAX_UINTN
      else DigitsValue(acc * 16 + d, s[1..])
  }

  /** AsciiStrHexToUintn: [blanks][zeros][x][digits]; an `x` counts only after a zero. */
  function StrHexToUintn(s: seq<byte>): (v: nat)
    ensures v <= MAX_UINTN
  {
    var t := SkipBlanks(s);
    var u := SkipZeros(t);
    if u != [] && (u[0] == 0x58 || u[0] == 0x78) then
      if |u| < |t| then DigitsValue(0, u[1..]) else 0
    else DigitsValue(0, u)
  }

  /** The two digits the sender writes for a checksum are read back as that checksum. */
  lemma HexByteReadsBack(v: byte)
    ensures StrHexToUintn(HexByte(v)) == v
  {
    var hi, lo := HexDigit(v / 16), HexDigit(v % 16);
    var s := HexByte(v);
    assert s[1..] == [lo] && [lo][1..] == [];
    assert SkipBlanks(s) == s;
    if v / 16 == 0 {
      assert SkipZeros(s) == SkipZeros([lo]);
      if lo == 0x30 {
        assert SkipZeros([lo]) == SkipZeros([]);
      } else {
        assert DigitsValue(0, [lo]) == DigitsValue(HexCharToInt(lo), []);
      }
    } else {
      assert SkipZeros(s) == s;
      assert DigitsValue(0, s) == DigitsValue(v / 16, [lo]);
      assert DigitsValue(v / 16, [lo]) == DigitsValue(v / 16 * 16 + v % 16, []);
    }
  }

  function Total(s: seq<byte>): (n: nat)
  {
    if s == [] then 0 else Total(s[..|s| - 1]) + s[|s| - 1]
  }

  /** The 8-bit checksum of a byte sequence. */
  function Sum(s: seq<byte>): (c: byte)
    ensures exists k: nat :: Total(s) == 256 * k + c
  {
    assert Total(s) == 256 * (Total(s) / 256) + Total(s) % 256;
    Total(s) % 256
  }

  /** The sum of two UINT8 values, stored in a UINT8. */
  function Add8(a: byte, b: byte): byte
  {
    (a + b) % 256
  }

  /** The sum can be kept in a UINT8 as the bytes go by. */
  lemma SumSnoc(s: seq<byte>, b: byte)
    ensures Sum(s + [b]) == Add8(Sum(s), b)
  {
    assert (s + [b])[..|s|] == s;
    assert Total(s + [b]) == Total(s) + b;
    hide Total;
    Mod256(Total(s), b);
  }

  lemma {:induction false} Mod256(n: nat, b: nat)
    ensures (n % 256 + b) % 256 == (n + b) % 256
  {
    assert n == n / 256 * 256 + n % 256;
  }

  lemma {:induction false} TotalAppend(s: seq<byte>, t: seq<byte>)
    ensures Total(s + t) == Total(s) + Total(t)
    decreases |t|
  {
    if t == [] {
      assert s + t == s;
    } else {
      TotalAppend(s, t[..|t| - 1]);
      assert (s + t)[..|s + t| - 1] == s + t[..|t| - 1];
    }
  }

  lemma {:induction false} TotalSplit(l: seq<byte>, b: byte, r: seq<byte>)
    ensures Total(l + [b] + r) == Total(l) + b + Total(r)
  {
    TotalAppend(l, [b]);
    TotalAppend(l + [b], r);
    assert Total([b]) == b;
  }

  /** Changing exactly one byte always changes the checksum. */
  lemma {:induction false} SumDetectsOneByte(s: seq<byte>, i: nat, b: byte)
    requires i < |s| && b != s[i]
    ensures Sum(s[i := b]) != Sum(s)
  {
    var l, r := s[..i], s[i + 1..];
    assert s == l + [s[i]] + r && s[i := b] == l + [b] + r;
    hide Total;
    TotalSplit(l, b, r);
    TotalSplit(l, s[i], r);
    assert Total(s[i := b]) - Total(s) == b - s[i];
  }

  /** `n` copies of `b`. */
  function Repeat(b: byte, n: nat): (s: seq<byte>)
    ensures |s| == n && forall i :: 0 <= i < n ==> s[i] == b
  {
    seq(n, _ => b)
  }

  lemma RepeatSnoc(b: byte, n: nat)
    ensures Repeat(b, n) + [b] == Repeat(b, n + 1) == [b] + Repeat(b, n)
  {
  }
}
